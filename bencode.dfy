/// The bencode codec of src/Bencode.php: `Bencode::decode`, a recursive-descent
/// parser that moves a cursor along a byte string, and `Bencode::encode`, its
/// serialiser. Each is given twice: as a specification function (`ParseValue`,
/// `DecodeFrom`, `Encode`) and as an imperative method that follows the PHP
/// code loop by loop (`DecodeAt`, `EncodeValue`) and is proved to compute it.
module Bencode {
  import opened Bytes
  import opened PhpValues

  /// Why decoding stopped. The first four are the ParseErrorException messages
  /// of the source; `Truncated`, `MissingDelimiter` and `InvalidLength` stand
  /// for inputs on which PHP would read past the end of the string, search for
  /// a delimiter that is not there, or cast a non-numeric length prefix.
  datatype DecodeError =
    | InvalidKeyType(found: string)
    | NegativeZero
    | NonDigitInteger(body: seq<byte>)
    | NotFullyDecoded
    | Truncated
    | MissingDelimiter(delimiter: byte)
    | InvalidLength(prefix: seq<byte>)

  datatype Result<T> = Ok(value: T) | Err(error: DecodeError)

  /// `gettype` of a decoded value, as named in the invalid-key message.
  function TypeName(v: PVal): string
  {
    match v
    case PInt(_) => "integer"
    case PStr(_) => "string"
    case PArr(_) => "array"
  }

  // ---------------------------------------------------------------- encoding

  /// Keys 0, 1, ..., n-1 in this order: the arrays `encode` writes as lists.
  predicate IsListKeys(es: seq<Entry>)
  {
    forall i :: 0 <= i < |es| ==> es[i].0 == KInt(i)
  }

  /// `Bencode::encode`: an integer as `i<decimal>e`, a string as
  /// `<length>:<bytes>`, a list-keyed array as `l<values>e`, and any other
  /// array as `d<key><value>...e` in `SORT_STRING` key order, every key
  /// written as a string.
  function Encode(v: PVal): (r: seq<byte>)
    decreases Size(v), 1
  {
    match v
    case PInt(n) => [LOWER_I] + Decimal(n) + [LOWER_E]
    case PStr(s) => Decimal(|s|) + [COLON] + s
    case PArr(es) =>
      if IsListKeys(es) then [LOWER_L] + EncodeList(es) + [LOWER_E]
      else
        KSortSize(es);
        [LOWER_D] + EncodeDict(KSort(es)) + [LOWER_E]
  }

  /// The values of a list, one after another.
  function EncodeList(es: seq<Entry>): seq<byte>
    decreases EntriesSize(es), 0
  {
    if es == [] then []
    else
      EntrySizeBelow(es, 0);
      EntriesSizeCons(es);
      Encode(es[0].1) + EncodeList(es[1..])
  }

  /// Each key (as a string) followed by its value, in the order given.
  function EncodeDict(es: seq<Entry>): seq<byte>
    decreases EntriesSize(es), 0
  {
    if es == [] then []
    else
      EntrySizeBelow(es, 0);
      EntriesSizeCons(es);
      Encode(PStr(KeyBytes(es[0].0))) + Encode(es[0].1) + EncodeDict(es[1..])
  }

  // ---------------------------------------------------------------- decoding

  /// The body of an integer (the bytes between `i` and the first `e`): `-0` is
  /// refused; after one optional leading `-` is stripped, what is left must be
  /// a non-empty digit run (leading zeros are accepted, so `-00` reads as 0).
  function ParseIntBody(body: seq<byte>): Result<int>
  {
    if body == [MINUS, ZERO] then Err(NegativeZero)
    else
      var negative := |body| > 0 && body[0] == MINUS;
      var digits := if negative then body[1..] else body;
      if !IsDigitRun(digits) then Err(NonDigitInteger(digits))
      else Ok(if negative then 0 - DigitsValue(digits) else DigitsValue(digits))
  }

  /// The integer branch: the body runs from after the `i` at `pos` to the first
  /// `e`, and the cursor moves past that `e`.
  function ParseInt(data: seq<byte>, pos: nat): (r: Result<(PVal, nat)>)
    requires pos < |data|
    ensures r.Ok? ==> pos < r.value.1 <= |data|
  {
    match IndexOf(data, LOWER_E, pos + 1)
    case None => Err(MissingDelimiter(LOWER_E))
    case Some(end) =>
      match ParseIntBody(data[pos + 1..end])
      case Err(e) => Err(e)
      case Ok(n) => Ok((PInt(n), end + 1))
  }

  /// The string branch: a length up to the first `:` at or after `pos`, then
  /// that many bytes.
  function ParseStr(data: seq<byte>, pos: nat): (r: Result<(PVal, nat)>)
    ensures r.Ok? ==> pos < r.value.1 <= |data|
  {
    match IndexOf(data, COLON, pos)
    case None => Err(MissingDelimiter(COLON))
    case Some(colon) =>
      var prefix := data[pos..colon];
      if !IsDigitRun(prefix) then Err(InvalidLength(prefix))
      else
        var start := colon + 1;
        var len := DigitsValue(prefix);
        if start + len > |data| then Err(Truncated)
        else Ok((PStr(data[start..start + len]), start + len))
  }

  /// One value starting at `pos`, and the position just after it; no check
  /// that the input ends there.
  function ParseValue(data: seq<byte>, pos: nat): (r: Result<(PVal, nat)>)
    decreases |data| - pos, 0
    ensures r.Ok? ==> pos < r.value.1 <= |data|
  {
    if pos >= |data| then Err(Truncated)
    else if data[pos] == LOWER_D then ParseDict(data, pos + 1, [])
    else if data[pos] == LOWER_L then ParseList(data, pos + 1, [])
    else if data[pos] == LOWER_I then ParseInt(data, pos)
    else ParseStr(data, pos)
  }

  /// The rest of a list whose first `|acc|` elements are in `acc`, up to and
  /// including its closing `e`.
  function ParseList(data: seq<byte>, pos: nat, acc: seq<Entry>): (r: Result<(PVal, nat)>)
    requires pos <= |data|
    decreases |data| - pos, 1
    ensures r.Ok? ==> pos < r.value.1 <= |data|
  {
    if pos < |data| && data[pos] == LOWER_E then Ok((PArr(acc), pos + 1))
    else
      match ParseValue(data, pos)
      case Err(e) => Err(e)
      case Ok((v, next)) => ParseList(data, next, acc + [(KInt(|acc|), v)])
  }

  /// The rest of a dictionary whose entries so far are in `acc`, up to and
  /// including its closing `e`. The value is read before the key's type is
  /// checked; the entries are `ksort`ed at the end.
  function ParseDict(data: seq<byte>, pos: nat, acc: seq<Entry>): (r: Result<(PVal, nat)>)
    requires pos <= |data|
    decreases |data| - pos, 1
    ensures r.Ok? ==> pos < r.value.1 <= |data|
  {
    if pos < |data| && data[pos] == LOWER_E then Ok((PArr(KSort(acc)), pos + 1))
    else
      match ParseValue(data, pos)
      case Err(e) => Err(e)
      case Ok((key, afterKey)) =>
        match ParseValue(data, afterKey)
        case Err(e) => Err(e)
        case Ok((v, next)) =>
          if !key.PStr? then Err(InvalidKeyType(TypeName(key)))
          else ParseDict(data, next, Assign(acc, NormalizeKey(key.s), v))
  }

  /// `Bencode::decode($data, $pos)`: one value and the advanced cursor; only a
  /// call that starts at position 0 insists that the whole input is consumed.
  function DecodeFrom(data: seq<byte>, pos: nat): (r: Result<(PVal, nat)>)
    ensures r.Ok? ==> pos < r.value.1 <= |data|
    ensures r.Ok? && pos == 0 ==> r.value.1 == |data|
  {
    match ParseValue(data, pos)
    case Err(e) => Err(e)
    case Ok((v, next)) =>
      if pos == 0 && next != |data| then Err(NotFullyDecoded) else Ok((v, next))
  }

  /// `Bencode::decode($data)`: the value a whole byte string encodes.
  function Decode(data: seq<byte>): Result<PVal>
  {
    match DecodeFrom(data, 0)
    case Err(e) => Err(e)
    case Ok((v, _)) => Ok(v)
  }

  // ------------------------------------------------------- the PHP methods

  /// `Bencode::decode`, step by step: the cursor `pos` is passed in and the
  /// advanced cursor handed back with the value. Each branch of the lookahead
  /// dispatch is its own method below.
  method DecodeAt(data: seq<byte>, pos: nat) returns (r: Result<(PVal, nat)>)
    decreases |data| - pos, 1
    ensures r == DecodeFrom(data, pos)
  {
    var startDecode := pos == 0;
    if pos >= |data| {
      return Err(Truncated);
    }
    if data[pos] == LOWER_D {
      r := DecodeDictAt(data, pos);
    } else if data[pos] == LOWER_L {
      r := DecodeListAt(data, pos);
    } else if data[pos] == LOWER_I {
      r := DecodeIntAt(data, pos);
    } else {
      r := DecodeStringAt(data, pos);
    }
    if r.Ok? && startDecode && r.value.1 != |data| {
      r := Err(NotFullyDecoded);
    }
  }

  /// The `d` branch: key/value pairs up to `e`, each stored with `$return[$key] = $value`,
  /// then `ksort`.
  method DecodeDictAt(data: seq<byte>, pos: nat) returns (r: Result<(PVal, nat)>)
    requires pos < |data| && data[pos] == LOWER_D
    decreases |data| - pos, 0
    ensures r == ParseValue(data, pos)
  {
    var cur := pos + 1;
    var entries: seq<Entry> := [];
    while cur >= |data| || data[cur] != LOWER_E
      invariant pos < cur <= |data|
      invariant ParseDict(data, cur, entries) == ParseValue(data, pos)
      decreases |data| - cur
    {
      var key := DecodeAt(data, cur);
      if key.Err? {
        return Err(key.error);
      }
      var val := DecodeAt(data, key.value.1);
      if val.Err? {
        return Err(val.error);
      }
      if !key.value.0.PStr? {
        return Err(InvalidKeyType(TypeName(key.value.0)));
      }
      entries := Assign(entries, NormalizeKey(key.value.0.s), val.value.0);
      cur := val.value.1;
    }
    return Ok((PArr(KSort(entries)), cur + 1));
  }

  /// The `l` branch: values up to `e`, each appended with `$return[] = $value`.
  method DecodeListAt(data: seq<byte>, pos: nat) returns (r: Result<(PVal, nat)>)
    requires pos < |data| && data[pos] == LOWER_L
    decreases |data| - pos, 0
    ensures r == ParseValue(data, pos)
  {
    var cur := pos + 1;
    var entries: seq<Entry> := [];
    while cur >= |data| || data[cur] != LOWER_E
      invariant pos < cur <= |data|
      invariant ParseList(data, cur, entries) == ParseValue(data, pos)
      decreases |data| - cur
    {
      var item := DecodeAt(data, cur);
      if item.Err? {
        return Err(item.error);
      }
      entries := entries + [(KInt(|entries|), item.value.0)];
      cur := item.value.1;
    }
    return Ok((PArr(entries), cur + 1));
  }

  /// The `i` branch: the body up to the first `e`, with its sign handled by a
  /// multiplier.
  method DecodeIntAt(data: seq<byte>, pos: nat) returns (r: Result<(PVal, nat)>)
    requires pos < |data|
    ensures r == ParseInt(data, pos)
  {
    var cur := pos + 1;
    var end := IndexOf(data, LOWER_E, cur);
    if end.None? {
      return Err(MissingDelimiter(LOWER_E));
    }
    var digits := end.value - cur;
    var body := data[cur..cur + digits];
    if body == [MINUS, ZERO] {
      return Err(NegativeZero);
    }
    var multiplier := 1;
    if |body| > 0 && body[0] == MINUS {
      multiplier := -1;
      body := body[1..];
    }
    if !IsDigitRun(body) {
      return Err(NonDigitInteger(body));
    }
    assert multiplier * DigitsValue(body) == if multiplier == 1 then DigitsValue(body) else 0 - DigitsValue(body);
    return Ok((PInt(multiplier * DigitsValue(body)), cur + digits + 1));
  }

  /// The string branch, taken for any other lookahead byte: a length up to the
  /// first `:`, then that many bytes.
  method DecodeStringAt(data: seq<byte>, pos: nat) returns (r: Result<(PVal, nat)>)
    ensures r == ParseStr(data, pos)
  {
    var colon := IndexOf(data, COLON, pos);
    if colon.None? {
      return Err(MissingDelimiter(COLON));
    }
    var digits := colon.value - pos;
    var prefix := data[pos..pos + digits];
    if !IsDigitRun(prefix) {
      return Err(InvalidLength(prefix));
    }
    var len := DigitsValue(prefix);
    var cur := pos + digits + 1;
    if cur + len > |data| {
      return Err(Truncated);
    }
    return Ok((PStr(data[cur..cur + len]), cur + len));
  }

  /// `Bencode::encode`, step by step.
  method EncodeValue(v: PVal) returns (out: seq<byte>)
    decreases Size(v), 1
    ensures out == Encode(v)
  {
    match v
    case PArr(es) =>
      out := EncodeArray(es);
    case PInt(n) =>
      out := [LOWER_I] + Decimal(n) + [LOWER_E];
    case PStr(s) =>
      out := Decimal(|s|) + [COLON] + s;
  }

  /// The `foreach` with the `$check` counter: does the array have keys
  /// 0, 1, ..., n-1 in this order?
  method HasListKeys(es: seq<Entry>) returns (isList: bool)
    ensures isList == IsListKeys(es)
  {
    var check := -1;
    isList := true;
    var i := 0;
    while i < |es|
      invariant 0 <= i <= |es| && check == i - 1
      invariant forall j :: 0 <= j < i ==> es[j].0 == KInt(j)
    {
      check := check + 1;
      if es[i].0 != KInt(check) {
        isList := false;
        break;
      }
      i := i + 1;
    }
  }

  /// The array branch of `encode`: `l`, the values, `e` for a list-keyed array;
  /// otherwise `d`, the `ksort`ed keys and values, `e`.
  method EncodeArray(es: seq<Entry>) returns (out: seq<byte>)
    decreases Size(PArr(es)), 0
    ensures out == Encode(PArr(es))
  {
    var isList := HasListKeys(es);
    if isList {
      var items := EncodeListItems(es);
      out := [LOWER_L] + items + [LOWER_E];
    } else {
      var sorted := KSort(es);
      KSortSize(es);
      var items := EncodeDictItems(sorted);
      out := [LOWER_D] + items + [LOWER_E];
    }
  }

  /// The first `foreach` of the list case, accumulating with `.=`.
  method EncodeListItems(es: seq<Entry>) returns (out: seq<byte>)
    decreases EntriesSize(es), 1
    ensures out == EncodeList(es)
  {
    out := [];
    var k := 0;
    while k < |es|
      invariant 0 <= k <= |es|
      invariant out == EncodeList(es[..k])
    {
      EntrySizeBelow(es, k);
      var item := EncodeValue(es[k].1);
      EncodeListSnoc(es, k);
      out := out + item;
      k := k + 1;
    }
    assert es[..|es|] == es;
  }

  /// The `foreach` of the dictionary case: each key through `encode(strval($key))`,
  /// then its value.
  method EncodeDictItems(es: seq<Entry>) returns (out: seq<byte>)
    decreases EntriesSize(es), 1
    ensures out == EncodeDict(es)
  {
    out := [];
    var k := 0;
    while k < |es|
      invariant 0 <= k <= |es|
      invariant out == EncodeDict(es[..k])
    {
      EntrySizeBelow(es, k);
      EntriesSizeCons(es);
      var keyOut := EncodeValue(PStr(KeyBytes(es[k].0)));
      var valueOut := EncodeValue(es[k].1);
      EncodeDictSnoc(es, k);
      out := out + keyOut + valueOut;
      k := k + 1;
    }
    assert es[..|es|] == es;
  }

  lemma {:induction false} EncodeListSnoc(es: seq<Entry>, k: nat)
    requires k < |es|
    ensures EncodeList(es[..k + 1]) == EncodeList(es[..k]) + Encode(es[k].1)
    decreases k
  {
    if k == 0 {
      assert es[..1][1..] == [];
    } else {
      assert es[..k + 1][1..] == es[1..][..k];
      assert es[..k][1..] == es[1..][..k - 1];
      EncodeListSnoc(es[1..], k - 1);
    }
  }

  lemma {:induction false} EncodeDictSnoc(es: seq<Entry>, k: nat)
    requires k < |es|
    ensures EncodeDict(es[..k + 1]) == EncodeDict(es[..k]) + Encode(PStr(KeyBytes(es[k].0))) + Encode(es[k].1)
  {
    assert es[..k + 1] == es[..k] + [es[k]];
    EncodeDictAppend(es[..k], [es[k]]);
    assert [es[k]][1..] == [];
  }

  /// The pairs of `a + b` are written as those of `a`, then those of `b`.
  lemma {:induction false} EncodeDictAppend(a: seq<Entry>, b: seq<Entry>)
    ensures EncodeDict(a + b) == EncodeDict(a) + EncodeDict(b)
  {
    if a == [] {
      assert a + b == b;
    } else {
      var head := Encode(PStr(KeyBytes(a[0].0))) + Encode(a[0].1);
      assert (a + b)[0] == a[0] && (a + b)[1..] == a[1..] + b;
      EncodeDictAppend(a[1..], b);
      AppendAssoc(head, EncodeDict(a[1..]), EncodeDict(b));
    }
  }

  lemma {:induction false} AppendAssoc(a: seq<byte>, b: seq<byte>, c: seq<byte>)
    ensures a + (b + c) == a + b + c
  {
  }
}
