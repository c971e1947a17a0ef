/// What the codec of src/Bencode.php guarantees: decoding inverts encoding on
/// values whose dictionaries are already canonical, every decoded value is
/// such a value, dictionaries are written in `SORT_STRING` order whatever
/// their insertion order, and the integer grammar, key checks and the
/// end-of-input check behave as the source says.
module BencodeProperties {
  import opened Bytes
  import opened PhpValues
  import opened Bencode

  /// A dictionary as `decode` leaves it: keys in PHP's normal form, in strictly
  /// increasing `SORT_STRING` order.
  predicate IsCanonicalDict(es: seq<Entry>)
  {
    (forall i :: 0 <= i < |es| ==> IsNormalKey(es[i].0)) && StrictlySorted(es)
  }

  /// Values on which `decode(encode(v)) == v`: every array is list-keyed or a
  /// canonical dictionary, all the way down.
  predicate WellFormed(v: PVal)
  {
    match v
    case PArr(es) =>
      (IsListKeys(es) || IsCanonicalDict(es)) &&
      forall i :: 0 <= i < |es| ==> WellFormed(es[i].1)
    case _ => true
  }

  // ------------------------------------------------------ integers and keys

  /// The decimal form of an integer never reads as `-0` and parses back to it.
  lemma {:induction false} IntBodyRoundTrip(n: int)
    ensures Decimal(n) != [MINUS, ZERO]
    ensures ParseIntBody(Decimal(n)) == Ok(n)
  {
    var d := Decimal(n);
    if n < 0 {
      assert d[1..] == NatDigits(-n);
    } else {
      assert IsDigit(d[0]);
    }
  }

  /// A leading zero does not change the value of a digit run.
  lemma {:induction false} LeadingZeroIgnored(d: seq<byte>)
    requires AllDigits(d)
    ensures AllDigits([ZERO] + d)
    ensures DigitsValue([ZERO] + d) == DigitsValue(d)
  {
    if d != [] {
      var z := [ZERO] + d;
      assert z[..|z| - 1] == [ZERO] + d[..|d| - 1];
      LeadingZeroIgnored(d[..|d| - 1]);
    }
  }

  /// Integer bodies with leading zeros are accepted.
  lemma {:induction false} LeadingZerosAccepted(d: seq<byte>)
    requires IsDigitRun(d)
    ensures ParseIntBody([ZERO] + d) == Ok(DigitsValue(d))
  {
    LeadingZeroIgnored(d);
    var z := [ZERO] + d;
    assert z[0] == ZERO;
    UnsignedBody(z);
  }

  /// A leading zero after `-` is accepted too (so `-00` reads as 0).
  lemma {:induction false} NegativeLeadingZerosAccepted(d: seq<byte>)
    requires IsDigitRun(d)
    ensures ParseIntBody([MINUS, ZERO] + d) == Ok(0 - DigitsValue(d))
  {
    var z := [ZERO] + d;
    LeadingZeroIgnored(d);
    MinusZeroPrefix(d);
    SignedBody([MINUS, ZERO] + d, z, DigitsValue(d));
  }

  /// The exact body `-0` is refused, and so is the integer `i-0e` it comes from.
  lemma {:induction false} NegativeZeroRejected()
    ensures ParseIntBody([MINUS, ZERO]) == Err(NegativeZero)
    ensures Decode([LOWER_I, MINUS, ZERO, LOWER_E]) == Err(NegativeZero)
  {
    var data := [LOWER_I, MINUS, ZERO, LOWER_E];
    FirstAt(data, LOWER_E, 1, 3);
    assert data[1..3] == [MINUS, ZERO];
  }

  lemma {:induction false} MinusZeroPrefix(d: seq<byte>)
    ensures [MINUS, ZERO] + d == [MINUS] + ([ZERO] + d)
  {
  }

  lemma {:induction false} UnsignedBody(z: seq<byte>)
    requires IsDigitRun(z)
    ensures ParseIntBody(z) == Ok(DigitsValue(z))
  {
    assert z[0] != MINUS;
  }

  lemma {:induction false} SignedBody(m: seq<byte>, z: seq<byte>, n: nat)
    requires m == [MINUS] + z
    requires IsDigitRun(z) && z != [ZERO] && DigitsValue(z) == n
    ensures ParseIntBody(m) == Ok(0 - n)
  {
    assert m[0] == MINUS && m[1..] == z;
    assert |z| > 1 || z[0] != ZERO;
    assert |m| > 2 || m[1] != ZERO;
  }

  /// After one `-` is stripped, a body that is empty or holds a non-digit is
  /// refused, and the error names what was left.
  lemma {:induction false} NonDigitBodyRejected(body: seq<byte>)
    requires body != [MINUS, ZERO]
    requires !IsDigitRun(body)
    requires |body| == 0 || body[0] != MINUS || !IsDigitRun(body[1..])
    ensures ParseIntBody(body) == Err(NonDigitInteger(if |body| > 0 && body[0] == MINUS then body[1..] else body))
  {
  }

  // ------------------------------------------------------------ the round trip

  /// The encoding of a value starts with the byte `decode` dispatches on.
  lemma {:induction false} EncodeLookahead(v: PVal)
    ensures |Encode(v)| > 0
    ensures v.PInt? ==> Encode(v)[0] == LOWER_I
    ensures v.PStr? ==> IsDigit(Encode(v)[0])
    ensures v.PArr? ==> Encode(v)[0] == (if IsListKeys(v.entries) then LOWER_L else LOWER_D)
  {
    match v
    case PInt(n) =>
    case PStr(s) =>
      assert Encode(v)[0] == Decimal(|s|)[0];
    case PArr(es) =>
  }

  /// No encoding starts with the byte that closes a list or a dictionary.
  lemma {:induction false} NotClosing(v: PVal)
    ensures |Encode(v)| > 0 && Encode(v)[0] != LOWER_E
  {
    EncodeLookahead(v);
  }

  /// The decimal form of an integer holds neither delimiter.
  lemma {:induction false} DecimalAvoidsDelimiters(n: int)
    ensures forall i :: 0 <= i < |Decimal(n)| ==> Decimal(n)[i] != LOWER_E && Decimal(n)[i] != COLON
  {
    if n < 0 {
      forall i | 1 <= i < |Decimal(n)| ensures Decimal(n)[i] == NatDigits(-n)[i - 1] {
      }
    }
  }

  // Facts about windows of the input: `data[p..end]` holds a known byte string.

  /// `data[p..end]` holds `enc`.
  predicate Holds(data: seq<byte>, p: nat, end: nat, enc: seq<byte>)
  {
    end == p + |enc| && end <= |data| && data[p..end] == enc
  }

  /// `data[p..close]` holds `items`, and the `e` that closes a list or a
  /// dictionary follows.
  predicate Closed(data: seq<byte>, p: nat, close: nat, items: seq<byte>)
  {
    Holds(data, p, close, items) && close < |data| && data[close] == LOWER_E
  }

  /// Cutting a window that holds `a + b` into its two parts.
  lemma {:induction false} SliceSplit(data: seq<byte>, p: nat, end: nat, a: seq<byte>, b: seq<byte>)
    requires end == p + |a| + |b| && end <= |data|
    requires data[p..end] == a + b
    ensures data[p..p + |a|] == a
    ensures data[p + |a|..end] == b
  {
    assert data[p..p + |a|] == data[p..end][..|a|];
    assert data[p + |a|..end] == data[p..end][|a|..];
  }

  /// A slice of a window is the same slice of the input, shifted.
  lemma {:induction false} SliceAt(data: seq<byte>, p: nat, enc: seq<byte>, i: nat, j: nat)
    requires p + |enc| <= |data| && data[p..p + |enc|] == enc
    requires i <= j <= |enc|
    ensures data[p + i..p + j] == enc[i..j]
  {
    forall k | 0 <= k < j - i ensures data[p + i..p + j][k] == enc[i..j][k] {
      assert data[p + i + k] == data[p..p + |enc|][i + k];
    }
  }

  /// A byte of a window is the byte of what it holds.
  lemma {:induction false} ByteAt(data: seq<byte>, p: nat, enc: seq<byte>, i: nat)
    requires p + |enc| <= |data| && data[p..p + |enc|] == enc
    requires i < |enc|
    ensures data[p + i] == enc[i]
  {
    assert data[p + i] == data[p..p + |enc|][i];
  }

  /// The first byte of a window is the first byte of what it holds.
  lemma {:induction false} FirstByte(data: seq<byte>, p: nat, enc: seq<byte>)
    requires p + |enc| <= |data| && data[p..p + |enc|] == enc
    requires |enc| > 0
    ensures p < |data| && data[p] == enc[0]
  {
    assert data[p] == data[p..p + |enc|][0];
  }

  /// `strpos` finds the first occurrence of a byte.
  lemma {:induction false} FirstAt(data: seq<byte>, b: byte, from: nat, at: nat)
    requires from <= at < |data| && data[at] == b
    requires forall k :: from <= k < at ==> data[k] != b
    ensures IndexOf(data, b, from) == Some(at)
  {
  }

  lemma {:induction false} EmptyPrefix<T>(es: seq<T>)
    ensures [] + es == es
  {
  }

  lemma {:induction false} ConsAppend<T>(acc: seq<T>, es: seq<T>)
    requires es != []
    ensures acc + [es[0]] + es[1..] == acc + es
  {
    assert es == [es[0]] + es[1..];
  }

  // Single steps of the decoder.

  /// An `i` starts an integer.
  lemma {:induction false} IntOpen(data: seq<byte>, p: nat)
    requires p < |data| && data[p] == LOWER_I
    ensures ParseValue(data, p) == ParseInt(data, p)
  {
  }

  /// A digit starts a string.
  lemma {:induction false} StrOpen(data: seq<byte>, p: nat)
    requires p < |data| && IsDigit(data[p])
    ensures ParseValue(data, p) == ParseStr(data, p)
  {
  }

  lemma {:induction false} IntStep(data: seq<byte>, p: nat, e: nat, n: int)
    requires p < |data|
    requires IndexOf(data, LOWER_E, p + 1) == Some(e)
    requires ParseIntBody(data[p + 1..e]) == Ok(n)
    ensures ParseInt(data, p) == Ok((PInt(n), e + 1))
  {
  }

  lemma {:induction false} StrStep(data: seq<byte>, p: nat, colon: nat, s: seq<byte>)
    requires IndexOf(data, COLON, p) == Some(colon)
    requires IsDigitRun(data[p..colon]) && DigitsValue(data[p..colon]) == |s|
    requires colon + 1 + |s| <= |data| && data[colon + 1..colon + 1 + |s|] == s
    ensures ParseStr(data, p) == Ok((PStr(s), colon + 1 + |s|))
  {
  }

  /// An `l` starts a list.
  lemma {:induction false} ListOpen(data: seq<byte>, p: nat)
    requires p < |data| && data[p] == LOWER_L
    ensures ParseValue(data, p) == ParseList(data, p + 1, [])
  {
  }

  /// A `d` starts a dictionary.
  lemma {:induction false} DictOpen(data: seq<byte>, p: nat)
    requires p < |data| && data[p] == LOWER_D
    ensures ParseValue(data, p) == ParseDict(data, p + 1, [])
  {
  }

  /// The closing `e` of a list.
  lemma {:induction false} ListEnd(data: seq<byte>, p: nat, acc: seq<Entry>)
    requires p < |data| && data[p] == LOWER_E
    ensures ParseList(data, p, acc) == Ok((PArr(acc), p + 1))
  {
  }

  /// The closing `e` of a dictionary.
  lemma {:induction false} DictEnd(data: seq<byte>, p: nat, acc: seq<Entry>)
    requires p < |data| && data[p] == LOWER_E
    ensures ParseDict(data, p, acc) == Ok((PArr(KSort(acc)), p + 1))
  {
  }

  /// One element step of `ParseList`.
  lemma {:induction false} ListStep(data: seq<byte>, p: nat, acc: seq<Entry>, v: PVal, next: nat)
    requires p < |data| && data[p] != LOWER_E
    requires ParseValue(data, p) == Ok((v, next))
    ensures ParseList(data, p, acc) == ParseList(data, next, acc + [(KInt(|acc|), v)])
  {
  }

  /// One key/value step of `ParseDict` with a string key.
  lemma {:induction false} DictStep(data: seq<byte>, p: nat, acc: seq<Entry>, ks: seq<byte>, afterKey: nat, v: PVal, next: nat)
    requires p < |data| && data[p] != LOWER_E
    requires ParseValue(data, p) == Ok((PStr(ks), afterKey))
    requires ParseValue(data, afterKey) == Ok((v, next))
    ensures ParseDict(data, p, acc) == ParseDict(data, next, Assign(acc, NormalizeKey(ks), v))
  {
  }

  // Layouts of byte strings, free of any encoding.

  /// An integer's bytes: `i`, a body without `e`, then `e`.
  lemma {:induction false} IntBytes(data: seq<byte>, p: nat, end: nat, d: seq<byte>)
    requires end == p + |d| + 2 && end <= |data|
    requires data[p..end] == [LOWER_I] + d + [LOWER_E]
    requires forall i :: 0 <= i < |d| ==> d[i] != LOWER_E
    ensures p < |data| && data[p] == LOWER_I
    ensures IndexOf(data, LOWER_E, p + 1) == Some(end - 1)
    ensures data[p + 1..end - 1] == d
  {
    var enc := [LOWER_I] + d + [LOWER_E];
    FirstByte(data, p, enc);
    ByteAt(data, p, enc, |enc| - 1);
    forall k | p + 1 <= k < end - 1 ensures data[k] != LOWER_E {
      ByteAt(data, p, enc, k - p);
      assert enc[k - p] == d[k - p - 1];
    }
    FirstAt(data, LOWER_E, p + 1, end - 1);
    SliceAt(data, p, enc, 1, 1 + |d|);
    assert enc[1..1 + |d|] == d;
  }

  /// A string's bytes: a length without `:`, the `:`, then the contents.
  lemma {:induction false} StrBytes(data: seq<byte>, p: nat, end: nat, d: seq<byte>, s: seq<byte>) returns (colon: nat)
    requires end == p + |d| + 1 + |s| && end <= |data|
    requires data[p..end] == d + [COLON] + s
    requires |d| > 0 && forall i :: 0 <= i < |d| ==> d[i] != COLON
    ensures colon == p + |d| && IndexOf(data, COLON, p) == Some(colon)
    ensures p < |data| && data[p] == d[0]
    ensures data[p..colon] == d && data[colon + 1..end] == s
  {
    var enc := d + [COLON] + s;
    colon := p + |d|;
    FirstByte(data, p, enc);
    ByteAt(data, p, enc, |d|);
    forall k | p <= k < colon ensures data[k] != COLON {
      ByteAt(data, p, enc, k - p);
      assert enc[k - p] == d[k - p];
    }
    FirstAt(data, COLON, p, colon);
    SliceAt(data, p, enc, 0, |d|);
    assert enc[0..|d|] == d;
    SliceAt(data, p, enc, |d| + 1, |enc|);
    assert enc[|d| + 1..|enc|] == s;
  }

  /// A list's or dictionary's bytes: an opening byte, the items, then `e`.
  lemma {:induction false} Bracketed(data: seq<byte>, p: nat, end: nat, open: byte, items: seq<byte>) returns (close: nat)
    requires end == p + |items| + 2 && end <= |data|
    requires data[p..end] == [open] + items + [LOWER_E]
    ensures p < |data| && data[p] == open
    ensures Closed(data, p + 1, close, items)
    ensures close + 1 == end
  {
    var enc := [open] + items + [LOWER_E];
    close := p + (1 + |items|);
    FirstByte(data, p, enc);
    ByteAt(data, p, enc, 1 + |items|);
    SliceAt(data, p, enc, 1, 1 + |items|);
    assert enc[1..1 + |items|] == items;
  }

  /// Cutting a window that holds `a + b + c` into its three parts.
  lemma {:induction false} Split3(data: seq<byte>, p: nat, end: nat, a: seq<byte>, b: seq<byte>, c: seq<byte>) returns (i: nat, j: nat)
    requires end == p + |a + b + c| && end <= |data|
    requires data[p..end] == a + b + c
    ensures i == p + |a| && j == i + |b| && end == j + |c|
    ensures data[p..i] == a && data[i..j] == b && data[j..end] == c
  {
    SliceSplit(data, p, end, a + b, c);
    j := p + |a + b|;
    SliceSplit(data, p, j, a, b);
    i := p + |a|;
  }

  /// The layout of a dictionary of two pairs, `d a b c d e`.
  lemma {:induction false} TwoPairBytes(data: seq<byte>, a: seq<byte>, b: seq<byte>, c: seq<byte>, d: seq<byte>)
    returns (p1: nat, p2: nat, p3: nat, p4: nat)
    requires data == [LOWER_D] + a + b + c + d + [LOWER_E]
    ensures p1 == 1 + |a| && p2 == p1 + |b| && p3 == p2 + |c| && p4 == p3 + |d| && |data| == p4 + 1
    ensures data[0] == LOWER_D && data[p4] == LOWER_E
    ensures data[1..p1] == a && data[p1..p2] == b && data[p2..p3] == c && data[p3..p4] == d
  {
    p1, p2, p3, p4 := 1 + |a|, 1 + |a| + |b|, 1 + |a| + |b| + |c|, 1 + |a| + |b| + |c| + |d|;
    assert data[1..p1] == a;
    assert data[p1..p2] == b;
    assert data[p2..p3] == c;
    assert data[p3..p4] == d;
  }

  /// The layout of a dictionary's first pair and whatever follows, `d a b rest`.
  lemma {:induction false} OnePairBytes(data: seq<byte>, a: seq<byte>, b: seq<byte>, rest: seq<byte>) returns (p1: nat, p2: nat)
    requires data == [LOWER_D] + a + b + rest
    ensures p1 == 1 + |a| && p2 == p1 + |b| && p2 <= |data|
    ensures data[0] == LOWER_D && data[1..p1] == a && data[p1..p2] == b
  {
    p1, p2 := 1 + |a|, 1 + |a| + |b|;
    assert data[1..p1] == a;
    assert data[p1..p2] == b;
  }

  // The encodings, unfolded one level.

  lemma {:induction false} IntEncoding(n: int)
    ensures Encode(PInt(n)) == [LOWER_I] + Decimal(n) + [LOWER_E]
    ensures |Encode(PInt(n))| == |Decimal(n)| + 2
  {
  }

  lemma {:induction false} StrEncoding(s: seq<byte>)
    ensures Encode(PStr(s)) == Decimal(|s|) + [COLON] + s
    ensures |Encode(PStr(s))| == |Decimal(|s|)| + 1 + |s|
  {
  }

  lemma {:induction false} ListEncoding(es: seq<Entry>)
    requires IsListKeys(es)
    ensures Encode(PArr(es)) == [LOWER_L] + EncodeList(es) + [LOWER_E]
    ensures |Encode(PArr(es))| == |EncodeList(es)| + 2
  {
  }

  lemma {:induction false} DictEncoding(es: seq<Entry>)
    requires !IsListKeys(es) && StrictlySorted(es)
    ensures Encode(PArr(es)) == [LOWER_D] + EncodeDict(es) + [LOWER_E]
    ensures |Encode(PArr(es))| == |EncodeDict(es)| + 2
  {
    KSortOfSorted(es);
  }

  lemma {:induction false} EntryEncoding(es: seq<Entry>)
    requires es != []
    ensures EncodeDict(es) == Encode(PStr(KeyBytes(es[0].0))) + Encode(es[0].1) + EncodeDict(es[1..])
    ensures |EncodeDict(es)| == |Encode(PStr(KeyBytes(es[0].0))) + Encode(es[0].1) + EncodeDict(es[1..])|
  {
  }

  // Decoding encoded values.

  /// Where the bytes of an encoded integer lie.
  lemma {:induction false} IntLayout(n: int, data: seq<byte>, p: nat, end: nat)
    requires Holds(data, p, end, Encode(PInt(n)))
    ensures p < |data| && data[p] == LOWER_I
    ensures IndexOf(data, LOWER_E, p + 1) == Some(end - 1)
    ensures data[p + 1..end - 1] == Decimal(n)
  {
    IntEncoding(n);
    DecimalAvoidsDelimiters(n);
    IntBytes(data, p, end, Decimal(n));
  }

  /// An encoded integer is read back, and the cursor moves past its `e`.
  lemma {:induction false} IntAt(n: int, data: seq<byte>, p: nat, end: nat)
    requires Holds(data, p, end, Encode(PInt(n)))
    ensures ParseValue(data, p) == Ok((PInt(n), end))
  {
    IntLayout(n, data, p, end);
    IntBodyRoundTrip(n);
    IntRead(n, data, p, end);
  }

  /// An `i`, then a body that reads as `n` up to the first `e`.
  lemma {:induction false} IntRead(n: int, data: seq<byte>, p: nat, end: nat)
    requires p < |data| && data[p] == LOWER_I
    requires IndexOf(data, LOWER_E, p + 1) == Some(end - 1)
    requires ParseIntBody(data[p + 1..end - 1]) == Ok(n)
    ensures ParseValue(data, p) == Ok((PInt(n), end))
  {
    IntStep(data, p, end - 1, n);
    IntOpen(data, p);
  }

  /// Where the bytes of an encoded string lie.
  lemma {:induction false} StrLayout(s: seq<byte>, data: seq<byte>, p: nat, end: nat) returns (colon: nat)
    requires Holds(data, p, end, Encode(PStr(s)))
    ensures p < |data| && IsDigit(data[p])
    ensures IndexOf(data, COLON, p) == Some(colon)
    ensures IsDigitRun(data[p..colon]) && DigitsValue(data[p..colon]) == |s|
    ensures end == colon + 1 + |s| && data[colon + 1..end] == s
  {
    StrEncoding(s);
    DecimalAvoidsDelimiters(|s|);
    colon := StrBytes(data, p, end, Decimal(|s|), s);
  }

  /// An encoded string is read back, and the cursor moves past its bytes.
  lemma {:induction false} StrAt(s: seq<byte>, data: seq<byte>, p: nat, end: nat)
    requires Holds(data, p, end, Encode(PStr(s)))
    ensures ParseValue(data, p) == Ok((PStr(s), end))
  {
    var colon := StrLayout(s, data, p, end);
    StrStep(data, p, colon, s);
    StrOpen(data, p);
  }

  /// Decoding at any cursor over the encoding of a well-formed value gives the
  /// value back and advances the cursor by exactly the encoding's length,
  /// whatever bytes follow.
  lemma {:induction false} ParseEncoded(v: PVal, data: seq<byte>, p: nat)
    requires WellFormed(v)
    requires p + |Encode(v)| <= |data| && data[p..p + |Encode(v)|] == Encode(v)
    ensures ParseValue(data, p) == Ok((v, p + |Encode(v)|))
  {
    ValueAt(v, data, p, p + |Encode(v)|);
  }

  /// `ParseEncoded` with the end of the encoding named.
  lemma {:induction false} ValueAt(v: PVal, data: seq<byte>, p: nat, end: nat)
    requires WellFormed(v)
    requires Holds(data, p, end, Encode(v))
    ensures ParseValue(data, p) == Ok((v, end))
    decreases Size(v), 2
  {
    match v
    case PInt(n) =>
      IntAt(n, data, p, end);
    case PStr(s) =>
      StrAt(s, data, p, end);
    case PArr(es) =>
      if IsListKeys(es) {
        ListAt(es, data, p, end);
      } else {
        DictAt(es, data, p, end);
      }
  }

  /// Where the elements of an encoded list lie: between the opening `l` at
  /// `p` and the closing `e` at `close`.
  lemma {:induction false} ListLayout(es: seq<Entry>, data: seq<byte>, p: nat, end: nat) returns (close: nat)
    requires IsListKeys(es)
    requires Holds(data, p, end, Encode(PArr(es)))
    ensures p < |data| && data[p] == LOWER_L
    ensures Closed(data, p + 1, close, EncodeList(es))
    ensures close + 1 == end
  {
    ListEncoding(es);
    close := Bracketed(data, p, end, LOWER_L, EncodeList(es));
  }

  /// The list case of `ValueAt`.
  lemma {:induction false} ListAt(es: seq<Entry>, data: seq<byte>, p: nat, end: nat)
    requires IsListKeys(es) && WellFormed(PArr(es))
    requires Holds(data, p, end, Encode(PArr(es)))
    ensures ParseValue(data, p) == Ok((PArr(es), end))
    decreases Size(PArr(es)), 1
  {
    ListNumbered(es);
    NumberedListAt(es, data, p, end);
  }

  /// `ListAt` with what the decoder relies on in a list.
  lemma {:induction false} NumberedListAt(es: seq<Entry>, data: seq<byte>, p: nat, end: nat)
    requires IsListKeys(es) && NumberedFrom(es, 0)
    requires EntriesSize(es) < Size(PArr(es))
    requires Holds(data, p, end, Encode(PArr(es)))
    ensures ParseValue(data, p) == Ok((PArr(es), end))
    decreases Size(PArr(es)), 0
  {
    var close := ListLayout(es, data, p, end);
    ParseListFromEmpty(es, data, p + 1, close);
    ListValue(data, p, PArr(es), close, end);
  }

  /// A list value is its elements after the `l`.
  lemma ListValue(data: seq<byte>, p: nat, v: PVal, close: nat, end: nat)
    requires p < |data| && data[p] == LOWER_L && close + 1 == end
    requires ParseList(data, p + 1, []) == Ok((v, close + 1))
    ensures ParseValue(data, p) == Ok((v, end))
  {
    ListOpen(data, p);
  }

  /// What the decoder relies on in a list.
  lemma {:induction false} ListNumbered(es: seq<Entry>)
    requires IsListKeys(es) && WellFormed(PArr(es))
    ensures NumberedFrom(es, 0)
    ensures EntriesSize(es) < Size(PArr(es))
  {
  }

  /// `ParseListEncoded` from the start of a list.
  lemma {:induction false} ParseListFromEmpty(es: seq<Entry>, data: seq<byte>, p: nat, close: nat)
    requires NumberedFrom(es, 0)
    requires Closed(data, p, close, EncodeList(es))
    ensures ParseList(data, p, []) == Ok((PArr(es), close + 1))
    decreases EntriesSize(es), 3
  {
    ParseListEncoded(es, data, p, close, []);
    EmptyPrefix(es);
  }

  /// Well-formed values under the integer keys `from`, `from + 1`, ...
  predicate NumberedFrom(es: seq<Entry>, from: nat)
  {
    forall i :: 0 <= i < |es| ==> es[i].0 == KInt(from + i) && WellFormed(es[i].1)
  }

  /// Where the entries of an encoded canonical dictionary lie: between the
  /// opening `d` at `p` and the closing `e` at `close`.
  lemma {:induction false} DictLayout(es: seq<Entry>, data: seq<byte>, p: nat, end: nat) returns (close: nat)
    requires !IsListKeys(es) && StrictlySorted(es)
    requires Holds(data, p, end, Encode(PArr(es)))
    ensures p < |data| && data[p] == LOWER_D
    ensures Closed(data, p + 1, close, EncodeDict(es))
    ensures close + 1 == end
  {
    DictEncoding(es);
    close := Bracketed(data, p, end, LOWER_D, EncodeDict(es));
  }

  /// The dictionary case of `ValueAt`.
  lemma {:induction false} DictAt(es: seq<Entry>, data: seq<byte>, p: nat, end: nat)
    requires !IsListKeys(es) && WellFormed(PArr(es))
    requires Holds(data, p, end, Encode(PArr(es)))
    ensures ParseValue(data, p) == Ok((PArr(es), end))
    decreases Size(PArr(es)), 1
  {
    CanonicalEntries(es);
    CanonicalDictAt(es, data, p, end);
  }

  /// `DictAt` with what the decoder relies on in a canonical dictionary.
  lemma {:induction false} CanonicalDictAt(es: seq<Entry>, data: seq<byte>, p: nat, end: nat)
    requires !IsListKeys(es) && FreshEntries(es, []) && StrictlySorted(es)
    requires EntriesSize(es) < Size(PArr(es))
    requires Holds(data, p, end, Encode(PArr(es)))
    ensures ParseValue(data, p) == Ok((PArr(es), end))
    decreases Size(PArr(es)), 0
  {
    var close := DictLayout(es, data, p, end);
    ParseCanonicalDict(es, data, p + 1, close);
    DictValue(data, p, PArr(es), close, end);
  }

  /// A dictionary value is its pairs after the `d`.
  lemma DictValue(data: seq<byte>, p: nat, v: PVal, close: nat, end: nat)
    requires p < |data| && data[p] == LOWER_D && close + 1 == end
    requires ParseDict(data, p + 1, []) == Ok((v, close + 1))
    ensures ParseValue(data, p) == Ok((v, end))
  {
    DictOpen(data, p);
  }

  /// The pairs of a canonical dictionary decode to exactly those pairs:
  /// `ksort` finds them in order already.
  lemma {:induction false} ParseCanonicalDict(es: seq<Entry>, data: seq<byte>, p: nat, close: nat)
    requires FreshEntries(es, []) && StrictlySorted(es)
    requires Closed(data, p, close, EncodeDict(es))
    ensures ParseDict(data, p, []) == Ok((PArr(es), close + 1))
    decreases EntriesSize(es), 4
  {
    ParseDictFromEmpty(es, data, p, close);
    KSortOfSorted(es);
  }

  /// `ParseDictEncoded` from the start of a dictionary.
  lemma {:induction false} ParseDictFromEmpty(es: seq<Entry>, data: seq<byte>, p: nat, close: nat)
    requires FreshEntries(es, [])
    requires Closed(data, p, close, EncodeDict(es))
    ensures ParseDict(data, p, []) == Ok((PArr(KSort(es)), close + 1))
    decreases EntriesSize(es), 3
  {
    ParseDictEncoded(es, data, p, close, []);
    assert [] + es == es;
  }

  /// What the decoder relies on in a canonical dictionary.
  lemma {:induction false} CanonicalEntries(es: seq<Entry>)
    requires !IsListKeys(es) && WellFormed(PArr(es))
    ensures FreshEntries(es, []) && StrictlySorted(es)
    ensures EntriesSize(es) < Size(PArr(es))
  {
    DictFresh(es);
  }

  /// The elements of a list, up to the closing `e` at `close`, extend `acc` by
  /// exactly those values under the next integer keys.
  lemma {:induction false} ParseListEncoded(es: seq<Entry>, data: seq<byte>, p: nat, close: nat, acc: seq<Entry>)
    requires NumberedFrom(es, |acc|)
    requires Closed(data, p, close, EncodeList(es))
    ensures ParseList(data, p, acc) == Ok((PArr(acc + es), close + 1))
    decreases EntriesSize(es), 2
  {
    if es == [] {
      ListEnd(data, p, acc);
      assert acc + es == acc;
    } else {
      var next := ListHead(es, data, p, close, acc);
      ParseListRest(es, data, next, close, acc);
      assert es[0] == (KInt(|acc|), es[0].1);
      ConsAppend(acc, es);
    }
  }

  lemma {:induction false} ParseListRest(es: seq<Entry>, data: seq<byte>, next: nat, close: nat, acc: seq<Entry>)
    requires es != []
    requires NumberedFrom(es, |acc|)
    requires Closed(data, next, close, EncodeList(es[1..]))
    ensures ParseList(data, next, acc + [(KInt(|acc|), es[0].1)])
         == Ok((PArr(acc + [(KInt(|acc|), es[0].1)] + es[1..]), close + 1))
    decreases EntriesSize(es), 1
  {
    var acc' := acc + [(KInt(|acc|), es[0].1)];
    forall i | 0 <= i < |es[1..]| ensures es[1..][i].0 == KInt(|acc'| + i) && WellFormed(es[1..][i].1) {
      assert es[1..][i] == es[i + 1];
    }
    assert NumberedFrom(es[1..], |acc'|);
    EntriesSizeCons(es);
    ParseListEncoded(es[1..], data, next, close, acc');
  }

  /// The first element of a list: decoding it moves the cursor to where the
  /// encoding of the other elements starts.
  lemma {:induction false} ListHead(es: seq<Entry>, data: seq<byte>, p: nat, close: nat, acc: seq<Entry>) returns (next: nat)
    requires es != [] && WellFormed(es[0].1)
    requires Holds(data, p, close, EncodeList(es))
    ensures Holds(data, next, close, EncodeList(es[1..]))
    ensures ParseList(data, p, acc) == ParseList(data, next, acc + [(KInt(|acc|), es[0].1)])
    decreases EntriesSize(es), 1
  {
    next := ElementAt(es, data, p, close);
    ListStep(data, p, acc, es[0].1, next);
  }

  /// Where the first element of an encoded list ends, and what decoding it
  /// gives.
  lemma {:induction false} ElementAt(es: seq<Entry>, data: seq<byte>, p: nat, close: nat) returns (next: nat)
    requires es != [] && WellFormed(es[0].1)
    requires Holds(data, p, close, EncodeList(es))
    ensures p < |data| && data[p] != LOWER_E
    ensures ParseValue(data, p) == Ok((es[0].1, next))
    ensures Holds(data, next, close, EncodeList(es[1..]))
    decreases EntriesSize(es), 0
  {
    EntrySizeBelow(es, 0);
    var v := es[0].1;
    var first := Encode(v);
    var rest := EncodeList(es[1..]);
    assert EncodeList(es) == first + rest;
    SliceSplit(data, p, close, first, rest);
    next := p + |first|;
    ValueAt(v, data, p, next);
    NotClosing(v);
    FirstByte(data, p, first);
  }

  /// The entries of a dictionary, up to the closing `e` at `close`, are
  /// appended to `acc` when their keys are new to it, and the closing `e`
  /// sorts the lot.
  lemma {:induction false} ParseDictEncoded(es: seq<Entry>, data: seq<byte>, p: nat, close: nat, acc: seq<Entry>)
    requires FreshEntries(es, acc)
    requires Closed(data, p, close, EncodeDict(es))
    ensures ParseDict(data, p, acc) == Ok((PArr(KSort(acc + es)), close + 1))
    decreases EntriesSize(es), 2
  {
    if es == [] {
      DictEnd(data, p, acc);
      assert acc + es == acc;
    } else {
      var next := DictHead(es, data, p, close, acc);
      ParseDictRest(es, data, next, close, acc);
      ConsAppend(acc, es);
    }
  }

  /// Entries that can be assigned one after another to an array holding
  /// `acc`, each under a key not yet present: normal keys, well-formed values.
  predicate FreshEntries(es: seq<Entry>, acc: seq<Entry>)
  {
    es == [] ||
    (IsNormalKey(es[0].0) && WellFormed(es[0].1) && FindKey(acc, es[0].0).None? &&
     FreshEntries(es[1..], acc + [es[0]]))
  }

  /// Normal keys, pairwise distinct and absent from `acc`, make fresh entries.
  lemma {:induction false} DistinctKeysFresh(es: seq<Entry>, acc: seq<Entry>)
    requires forall i :: 0 <= i < |es| ==> IsNormalKey(es[i].0) && WellFormed(es[i].1)
    requires forall i :: 0 <= i < |es| ==> FindKey(acc, es[i].0).None?
    requires forall i, j :: 0 <= i < j < |es| ==> es[i].0 != es[j].0
    ensures FreshEntries(es, acc)
  {
    if es != [] {
      var tail := es[1..];
      forall i | 0 <= i < |tail| ensures FindKey(acc + [es[0]], tail[i].0).None? {
        assert tail[i] == es[i + 1];
        FindKeyAppend(acc, es[0], es[i + 1].0);
      }
      forall i | 0 <= i < |tail| ensures IsNormalKey(tail[i].0) && WellFormed(tail[i].1) {
        assert tail[i] == es[i + 1];
      }
      forall i, j | 0 <= i < j < |tail| ensures tail[i].0 != tail[j].0 {
        assert tail[i] == es[i + 1] && tail[j] == es[j + 1];
      }
      DistinctKeysFresh(tail, acc + [es[0]]);
    }
  }

  /// The entries of a canonical dictionary can be decoded into an empty array.
  lemma {:induction false} DictFresh(es: seq<Entry>)
    requires IsCanonicalDict(es) && forall i :: 0 <= i < |es| ==> WellFormed(es[i].1)
    ensures FreshEntries(es, [])
  {
    StrictIsSortedUnique(es);
    DistinctKeysFresh(es, []);
  }

  lemma {:induction false} ParseDictRest(es: seq<Entry>, data: seq<byte>, next: nat, close: nat, acc: seq<Entry>)
    requires es != [] && FreshEntries(es, acc)
    requires Closed(data, next, close, EncodeDict(es[1..]))
    ensures ParseDict(data, next, acc + [es[0]]) == Ok((PArr(KSort(acc + [es[0]] + es[1..])), close + 1))
    decreases EntriesSize(es), 1
  {
    EntriesSizeCons(es);
    ParseDictEncoded(es[1..], data, next, close, acc + [es[0]]);
  }

  /// The first key/value pair of a dictionary: decoding it appends the pair to
  /// `acc` and moves the cursor to where the other pairs start.
  lemma {:induction false} DictHead(es: seq<Entry>, data: seq<byte>, p: nat, close: nat, acc: seq<Entry>) returns (next: nat)
    requires es != [] && FreshEntries(es, acc)
    requires Holds(data, p, close, EncodeDict(es))
    ensures Holds(data, next, close, EncodeDict(es[1..]))
    ensures ParseDict(data, p, acc) == ParseDict(data, next, acc + [es[0]])
    decreases EntriesSize(es), 1
  {
    var afterKey;
    afterKey, next := EntryAt(es, data, p, close);
    var k := es[0].0;
    DictStep(data, p, acc, KeyBytes(k), afterKey, es[0].1, next);
    NormalizeKeyBytes(k);
    assert Assign(acc, k, es[0].1) == acc + [es[0]];
  }

  /// Where the first key and value of an encoded dictionary end, and what
  /// decoding them gives.
  lemma {:induction false} EntryAt(es: seq<Entry>, data: seq<byte>, p: nat, close: nat) returns (afterKey: nat, next: nat)
    requires es != [] && WellFormed(es[0].1)
    requires Holds(data, p, close, EncodeDict(es))
    ensures p < |data| && data[p] != LOWER_E
    ensures ParseValue(data, p) == Ok((PStr(KeyBytes(es[0].0)), afterKey))
    ensures ParseValue(data, afterKey) == Ok((es[0].1, next))
    ensures Holds(data, next, close, EncodeDict(es[1..]))
    decreases EntriesSize(es), 0
  {
    EntrySizeBelow(es, 0);
    var key := PStr(KeyBytes(es[0].0));
    afterKey, next := EntryWindow(es, data, p, close);
    StrAt(KeyBytes(es[0].0), data, p, afterKey);
    ValueAt(es[0].1, data, afterKey, next);
    NotClosing(key);
    FirstByte(data, p, Encode(key));
  }

  /// The windows of the first key, the first value and the other pairs of an
  /// encoded dictionary.
  lemma {:induction false} EntryWindow(es: seq<Entry>, data: seq<byte>, p: nat, close: nat) returns (afterKey: nat, next: nat)
    requires es != []
    requires Holds(data, p, close, EncodeDict(es))
    ensures afterKey == p + |Encode(PStr(KeyBytes(es[0].0)))| && next == afterKey + |Encode(es[0].1)|
    ensures data[p..afterKey] == Encode(PStr(KeyBytes(es[0].0)))
    ensures data[afterKey..next] == Encode(es[0].1)
    ensures Holds(data, next, close, EncodeDict(es[1..]))
  {
    EntryEncoding(es);
    afterKey, next := Split3(data, p, close, Encode(PStr(KeyBytes(es[0].0))), Encode(es[0].1), EncodeDict(es[1..]));
  }

  /// Round trip: decoding the encoding of a well-formed value gives it back.
  lemma {:induction false} DecodeEncode(v: PVal)
    requires WellFormed(v)
    ensures Decode(Encode(v)) == Ok(v)
  {
    var data := Encode(v);
    assert data[0..|data|] == data;
    ParseEncoded(v, data, 0);
  }

  /// Only the outermost call checks for trailing bytes: from any cursor past 0
  /// the encoding is decoded and the cursor stops right after it, while the
  /// same bytes followed by anything at position 0 are refused.
  lemma {:induction false} CursorAdvance(v: PVal, data: seq<byte>, p: nat)
    requires WellFormed(v)
    requires p + |Encode(v)| <= |data| && data[p..p + |Encode(v)|] == Encode(v)
    ensures p > 0 ==> DecodeFrom(data, p) == Ok((v, p + |Encode(v)|))
    ensures p == 0 && |Encode(v)| < |data| ==> DecodeFrom(data, p) == Err(NotFullyDecoded)
    ensures p == 0 && |Encode(v)| == |data| ==> DecodeFrom(data, p) == Ok((v, |data|))
  {
    ParseEncoded(v, data, p);
  }

  /// Trailing bytes after a complete value make `decode` fail.
  lemma {:induction false} TrailingBytesRejected(v: PVal, tail: seq<byte>)
    requires WellFormed(v) && tail != []
    ensures Decode(Encode(v) + tail) == Err(NotFullyDecoded)
  {
    var data := Encode(v) + tail;
    assert data[0..|Encode(v)|] == Encode(v);
    CursorAdvance(v, data, 0);
  }

  // ------------------------------------------------------ what decode produces

  /// Every value `ParseValue` produces is well-formed: lists are list-keyed and
  /// dictionaries are canonical, whatever the order or repetition of keys in
  /// the input.
  lemma {:induction false} ParsedWellFormed(data: seq<byte>, p: nat)
    ensures ParseValue(data, p).Ok? ==> WellFormed(ParseValue(data, p).value.0)
    decreases |data| - p, 0
  {
    if p < |data| {
      if data[p] == LOWER_D {
        ParsedDictWellFormed(data, p + 1, []);
      } else if data[p] == LOWER_L {
        ParsedListWellFormed(data, p + 1, []);
      }
    }
  }

  lemma {:induction false} ParsedListWellFormed(data: seq<byte>, p: nat, acc: seq<Entry>)
    requires p <= |data|
    requires IsListKeys(acc) && forall i :: 0 <= i < |acc| ==> WellFormed(acc[i].1)
    ensures ParseList(data, p, acc).Ok? ==> WellFormed(ParseList(data, p, acc).value.0)
    decreases |data| - p, 1
  {
    if !(p < |data| && data[p] == LOWER_E) {
      ParsedWellFormed(data, p);
      match ParseValue(data, p)
      case Err(_) =>
      case Ok((v, next)) =>
        ParsedListWellFormed(data, next, acc + [(KInt(|acc|), v)]);
    }
  }

  lemma {:induction false} ParsedDictWellFormed(data: seq<byte>, p: nat, acc: seq<Entry>)
    requires p <= |data|
    requires forall i :: 0 <= i < |acc| ==> IsNormalKey(acc[i].0) && WellFormed(acc[i].1)
    requires UniqueKeys(acc)
    ensures var r := ParseDict(data, p, acc);
      r.Ok? ==> WellFormed(r.value.0) && r.value.0.PArr? && IsCanonicalDict(r.value.0.entries)
    decreases |data| - p, 1
  {
    if p < |data| && data[p] == LOWER_E {
      KSortIsCanonical(acc);
    } else {
      ParsedWellFormed(data, p);
      match ParseValue(data, p)
      case Err(_) =>
      case Ok((key, afterKey)) =>
        ParsedWellFormed(data, afterKey);
        match ParseValue(data, afterKey)
        case Err(_) =>
        case Ok((v, next)) =>
          if key.PStr? {
            var k := NormalizeKey(key.s);
            var acc' := Assign(acc, k, v);
            AssignMembers(acc, k, v);
            AssignUnique(acc, k, v);
            forall i | 0 <= i < |acc'| ensures IsNormalKey(acc'[i].0) && WellFormed(acc'[i].1) {
              assert acc'[i] in acc';
            }
            ParsedDictWellFormed(data, next, acc');
          }
    }
  }

  /// A list read that succeeds stops just past an `e`: the one that closes it.
  lemma {:induction false} ParsedListCloses(data: seq<byte>, p: nat, acc: seq<Entry>)
    requires p <= |data|
    ensures ParseList(data, p, acc).Ok? ==> data[ParseList(data, p, acc).value.1 - 1] == LOWER_E
    decreases |data| - p
  {
    if p < |data| && data[p] == LOWER_E {
      ListEnd(data, p, acc);
    } else if p < |data| && ParseValue(data, p).Ok? {
      var v, next := ParseValue(data, p).value.0, ParseValue(data, p).value.1;
      ListStep(data, p, acc, v, next);
      ParsedListCloses(data, next, acc + [(KInt(|acc|), v)]);
    }
  }

  /// A dictionary read that succeeds stops just past an `e`: the one that closes it.
  lemma {:induction false} ParsedDictCloses(data: seq<byte>, p: nat, acc: seq<Entry>)
    requires p <= |data|
    ensures ParseDict(data, p, acc).Ok? ==> data[ParseDict(data, p, acc).value.1 - 1] == LOWER_E
    decreases |data| - p
  {
    if !(p < |data| && data[p] == LOWER_E) {
      match ParseValue(data, p)
      case Err(_) =>
      case Ok((key, afterKey)) =>
        match ParseValue(data, afterKey)
        case Err(_) =>
        case Ok((v, next)) =>
          if key.PStr? {
            ParsedDictCloses(data, next, Assign(acc, NormalizeKey(key.s), v));
          }
    }
  }

  /// `ksort` turns the entries of a PHP array into a canonical dictionary.
  lemma {:induction false} KSortIsCanonical(acc: seq<Entry>)
    requires forall i :: 0 <= i < |acc| ==> IsNormalKey(acc[i].0) && WellFormed(acc[i].1)
    requires UniqueKeys(acc)
    ensures IsCanonicalDict(KSort(acc))
    ensures WellFormed(PArr(KSort(acc)))
  {
    var s := KSort(acc);
    KSortSorted(acc);
    NormalKeysUniqueBytes(acc);
    KSortUnique(acc);
    SortedUniqueIsStrict(s);
    KSortMembers(acc);
    forall i | 0 <= i < |s| ensures IsNormalKey(s[i].0) && WellFormed(s[i].1) {
      assert s[i] in acc;
    }
  }

  /// Whatever `decode` accepts, it returns in canonical form: re-encoding the
  /// result and decoding that gives the same value.
  lemma {:induction false} DecodeIsCanonical(data: seq<byte>)
    requires Decode(data).Ok?
    ensures WellFormed(Decode(data).value)
    ensures Decode(Encode(Decode(data).value)) == Decode(data)
  {
    ParsedWellFormed(data, 0);
    DecodeEncode(Decode(data).value);
  }

  // ------------------------------------------------------ dictionaries

  /// `encode` writes a dictionary the same way whatever the insertion order of
  /// its entries.
  lemma {:induction false} EncodeIgnoresInsertionOrder(es1: seq<Entry>, es2: seq<Entry>)
    requires multiset(es1) == multiset(es2)
    requires UniqueKeyBytes(es1) && UniqueKeyBytes(es2)
    requires !IsListKeys(es1) && !IsListKeys(es2)
    ensures Encode(PArr(es1)) == Encode(PArr(es2))
  {
    KSortSorted(es1);
    KSortSorted(es2);
    KSortUnique(es1);
    KSortUnique(es2);
    SortedUniqueIsStrict(KSort(es1));
    SortedUniqueIsStrict(KSort(es2));
    KSortPermutes(es1);
    KSortPermutes(es2);
    StrictlySortedUnique(KSort(es1), KSort(es2));
  }

  /// A dictionary is decoded into `SORT_STRING` key order, whatever order its
  /// keys arrive in.
  lemma {:induction false} DecodeSortsDictionary(es: seq<Entry>)
    requires forall i :: 0 <= i < |es| ==> IsNormalKey(es[i].0) && WellFormed(es[i].1)
    requires UniqueKeys(es)
    ensures Decode([LOWER_D] + EncodeDict(es) + [LOWER_E]) == Ok(PArr(KSort(es)))
    ensures StrictlySorted(KSort(es))
  {
    var items := EncodeDict(es);
    var data := [LOWER_D] + items + [LOWER_E];
    assert data[0..|data|] == data;
    var close := Bracketed(data, 0, |data|, LOWER_D, items);
    DistinctKeysFresh(es, []);
    DecodeDictItems(es, data, close);
    KSortIsCanonical(es);
  }

  /// Decoding a whole input that is `d`, the pairs of `es`, `e`.
  lemma {:induction false} DecodeDictItems(es: seq<Entry>, data: seq<byte>, close: nat)
    requires FreshEntries(es, [])
    requires 0 < |data| && data[0] == LOWER_D
    requires close == 0 + 1 + |EncodeDict(es)| && |data| == close + 1
    requires data[0 + 1..close] == EncodeDict(es) && data[close] == LOWER_E
    ensures Decode(data) == Ok(PArr(KSort(es)))
  {
    ParseDictFromEmpty(es, data, 1, close);
    DictValue(data, 0, PArr(KSort(es)), close, |data|);
    DecodeWhole(data, PArr(KSort(es)));
  }

  /// When a key repeats, the value decoded last is the one kept.
  lemma {:induction false} DuplicateKeyKeepsLast(s: seq<byte>, v1: PVal, v2: PVal)
    requires WellFormed(v1) && WellFormed(v2)
    ensures Decode([LOWER_D] + Encode(PStr(s)) + Encode(v1) + Encode(PStr(s)) + Encode(v2) + [LOWER_E])
         == Ok(PArr([(NormalizeKey(s), v2)]))
  {
    var ks, e1, e2 := Encode(PStr(s)), Encode(v1), Encode(v2);
    var data := [LOWER_D] + ks + e1 + ks + e2 + [LOWER_E];
    var p1, p2, p3, p4 := TwoPairBytes(data, ks, e1, ks, e2);
    TwoPairsAt(data, s, v1, v2, p1, p2, p3, p4);
    SameKeyTwice(data, s, v1, v2, p1, p2, p3, p4);
  }

  /// What the decoder reads from the windows of two pairs with the same key.
  lemma {:induction false} TwoPairsAt(data: seq<byte>, s: seq<byte>, v1: PVal, v2: PVal, p1: nat, p2: nat, p3: nat, p4: nat)
    requires WellFormed(v1) && WellFormed(v2)
    requires p1 == 1 + |Encode(PStr(s))| && p2 == p1 + |Encode(v1)|
    requires p3 == p2 + |Encode(PStr(s))| && p4 == p3 + |Encode(v2)| && |data| == p4 + 1
    requires data[1..p1] == Encode(PStr(s)) && data[p1..p2] == Encode(v1)
    requires data[p2..p3] == Encode(PStr(s)) && data[p3..p4] == Encode(v2)
    ensures 1 < |data| && data[1] != LOWER_E && p2 < |data| && data[p2] != LOWER_E
    ensures ParseValue(data, 1) == Ok((PStr(s), p1)) && ParseValue(data, p1) == Ok((v1, p2))
    ensures ParseValue(data, p2) == Ok((PStr(s), p3)) && ParseValue(data, p3) == Ok((v2, p4))
  {
    StrAt(s, data, 1, p1);
    ValueAt(v1, data, p1, p2);
    StrAt(s, data, p2, p3);
    ValueAt(v2, data, p3, p4);
    NotClosing(PStr(s));
    FirstByte(data, 1, Encode(PStr(s)));
    FirstByte(data, p2, Encode(PStr(s)));
  }

  /// The decoder's steps over `d`, a pair, a pair with the same key, `e`.
  lemma {:induction false} SameKeyTwice(data: seq<byte>, s: seq<byte>, v1: PVal, v2: PVal, p1: nat, p2: nat, p3: nat, p4: nat)
    requires 1 < |data| && data[0] == LOWER_D && data[1] != LOWER_E
    requires ParseValue(data, 1) == Ok((PStr(s), p1)) && ParseValue(data, p1) == Ok((v1, p2))
    requires p2 < |data| && data[p2] != LOWER_E
    requires ParseValue(data, p2) == Ok((PStr(s), p3)) && ParseValue(data, p3) == Ok((v2, p4))
    requires |data| == p4 + 1 && data[p4] == LOWER_E
    ensures Decode(data) == Ok(PArr([(NormalizeKey(s), v2)]))
  {
    var k := NormalizeKey(s);
    DictOpen(data, 0);
    DictStep(data, 1, [], s, p1, v1, p2);
    AssignTwice(k, v1, v2);
    DictStep(data, p2, [(k, v1)], s, p3, v2, p4);
    DictEnd(data, p4, [(k, v2)]);
    KSortSingle((k, v2));
    DecodeWhole(data, PArr([(k, v2)]));
  }

  /// The second assignment to the same key replaces the first.
  lemma {:induction false} AssignTwice(k: Key, v1: PVal, v2: PVal)
    ensures Assign([], k, v1) == [(k, v1)]
    ensures Assign([(k, v1)], k, v2) == [(k, v2)]
  {
    assert FindKey([(k, v1)], k) == Some(0);
  }

  lemma {:induction false} KSortSingle(e: Entry)
    ensures KSort([e]) == [e]
  {
  }

  /// A value that spans the whole input is what `decode` returns.
  lemma {:induction false} DecodeWhole(data: seq<byte>, v: PVal)
    requires ParseValue(data, 0) == Ok((v, |data|))
    ensures Decode(data) == Ok(v)
  {
  }

  /// A failure of the first value is the failure of `decode`.
  lemma {:induction false} DecodeFails(data: seq<byte>, e: DecodeError)
    requires ParseValue(data, 0) == Err(e)
    ensures Decode(data) == Err(e)
  {
  }

  /// A key that decodes to an integer or an array makes `decode` fail; the
  /// value after it is read first.
  lemma {:induction false} NonStringKeyRejected(key: PVal, v: PVal, rest: seq<byte>)
    requires WellFormed(key) && WellFormed(v) && !key.PStr?
    ensures Decode([LOWER_D] + Encode(key) + Encode(v) + rest) == Err(InvalidKeyType(TypeName(key)))
  {
    var ek, ev := Encode(key), Encode(v);
    var data := [LOWER_D] + ek + ev + rest;
    var p1, p2 := OnePairBytes(data, ek, ev, rest);
    ValueAt(key, data, 1, p1);
    ValueAt(v, data, p1, p2);
    NotClosing(key);
    FirstByte(data, 1, ek);
    NonStringKeyStep(data, key, v, p1, p2);
  }

  /// The decoder's steps over `d` and a pair whose key is not a string.
  lemma {:induction false} NonStringKeyStep(data: seq<byte>, key: PVal, v: PVal, p1: nat, p2: nat)
    requires 1 < |data| && data[0] == LOWER_D && data[1] != LOWER_E && !key.PStr?
    requires ParseValue(data, 1) == Ok((key, p1)) && ParseValue(data, p1) == Ok((v, p2))
    ensures Decode(data) == Err(InvalidKeyType(TypeName(key)))
  {
    DictOpen(data, 0);
    assert ParseDict(data, 1, []) == Err(InvalidKeyType(TypeName(key)));
    DecodeFails(data, InvalidKeyType(TypeName(key)));
  }

  // ------------------------------------------------------ lossy re-encodings

  /// The empty array is written as a list, so `de` decodes to a value that is
  /// written back as `le`.
  lemma {:induction false} EmptyDictionaryBecomesList()
    ensures Decode([LOWER_D, LOWER_E]) == Ok(PArr([]))
    ensures Encode(PArr([])) == [LOWER_L, LOWER_E]
  {
    assert ParseValue([LOWER_D, LOWER_E], 0) == ParseDict([LOWER_D, LOWER_E], 1, []);
  }

  /// A dictionary whose keys are "0", "1", ..., "n-1" is stored by PHP under
  /// integer keys 0, 1, ..., n-1 and so is written back as a list.
  lemma {:induction false} NumericKeysBecomeList(vs: seq<PVal>)
    requires forall i :: 0 <= i < |vs| ==> WellFormed(vs[i])
    requires |vs| <= 10
    ensures NumericKeyed(vs) == Indexed(vs) && IsListKeys(Indexed(vs))
    ensures Decode([LOWER_D] + EncodeDict(NumericKeyed(vs)) + [LOWER_E]) == Ok(PArr(Indexed(vs)))
    ensures Encode(PArr(Indexed(vs))) == [LOWER_L] + EncodeList(Indexed(vs)) + [LOWER_E]
  {
    var es := Indexed(vs);
    NumericKeysNormalize(vs);
    DecodeSortsDictionary(es);
    SingleDigitKeysSorted(es);
    KSortOfSorted(es);
    ListEncoding(es);
  }

  /// The values of `vs` under the integer keys 0, 1, ..., as in a PHP list.
  function Indexed(vs: seq<PVal>): (es: seq<Entry>)
    ensures |es| == |vs|
    ensures forall i :: 0 <= i < |vs| ==> es[i] == (KInt(i), vs[i])
  {
    seq(|vs|, i requires 0 <= i < |vs| => (KInt(i), vs[i]))
  }

  /// The values of `vs` under the keys a dictionary `d0:...1:...e` stores
  /// them with: the decimal strings "0", "1", ... in PHP's normal form.
  function NumericKeyed(vs: seq<PVal>): (es: seq<Entry>)
    ensures |es| == |vs|
    ensures forall i :: 0 <= i < |vs| ==> es[i] == (NormalizeKey(Decimal(i)), vs[i])
  {
    seq(|vs|, i requires 0 <= i < |vs| => (NormalizeKey(Decimal(i)), vs[i]))
  }

  /// The string keys "0", "1", ... are stored as the integer keys 0, 1, ...
  lemma {:induction false} NumericKeysNormalize(vs: seq<PVal>)
    requires forall i :: 0 <= i < |vs| ==> WellFormed(vs[i])
    requires |vs| <= PHP_INT_MAX
    ensures NumericKeyed(vs) == Indexed(vs) && IsListKeys(Indexed(vs))
    ensures forall i :: 0 <= i < |vs| ==> IsNormalKey(Indexed(vs)[i].0) && WellFormed(Indexed(vs)[i].1)
    ensures UniqueKeys(Indexed(vs))
  {
    forall i | 0 <= i < |vs| ensures NormalizeKey(Decimal(i)) == KInt(i) {
      IntKeyOfDecimal(i);
    }
  }

  /// Keys 0 to 9 are in `SORT_STRING` order already (from 10 on they are not:
  /// "10" sorts before "2").
  lemma {:induction false} SingleDigitKeysSorted(es: seq<Entry>)
    requires IsListKeys(es) && |es| <= 10
    ensures StrictlySorted(es)
  {
    forall i, j | 0 <= i < j < |es| ensures StrLess(KeyBytes(es[i].0), KeyBytes(es[j].0)) {
      assert KeyBytes(es[i].0) == [ZERO + i as byte];
      assert KeyBytes(es[j].0) == [ZERO + j as byte];
    }
  }
}
