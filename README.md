# Bencode codec, modelled in Dafny

This project models the bencode codec of `Rhilip\Bencode\Bencode` (src/Bencode.php), which reads and writes the "bencoding" serialisation of section "Bencoding" of BEP 3, The BitTorrent Protocol Specification. It also proves what that codec guarantees.

- `Bencode::decode` is a recursive-descent parser that moves a cursor along a byte string.
  - It dispatches on the lookahead byte: `d` starts a dictionary, `l` a list and `i` an integer; any other byte starts a `<length>:<bytes>` string.
  - Dictionary keys must decode to strings.
  - Each dictionary is stored into a PHP array, which turns canonical decimal keys into integer keys and keeps the last value of a repeated key, and is then sorted with `ksort(..., SORT_STRING)`.
  - Only the outermost call, the one that starts at position 0, insists that the whole input is consumed.
- `Bencode::encode` is its inverse.
  - An integer is written as `i<decimal>e` and a string as `<length>:<bytes>`.
  - An array whose keys are exactly 0, 1, ..., n-1 in order is written as a list `l...e`.
  - Any other array is written as a dictionary `d...e`: its keys go in `SORT_STRING` order, each one written as a string.

The files:

- `bytes.dfy` (module `Bytes`): bytes, and the PHP runtime pieces the codec applies to them.
  - `ctype_digit`, the `(int)` cast of a digit run and `strval` of an integer.
  - `strpos`.
  - The byte-wise order that `SORT_STRING` sorts by.
- `php_values.dfy` (module `PhpValues`): the values the codec handles and the PHP array semantics it relies on.
  - A value is an integer, a byte string, or an ordered array of key/value entries.
  - Array key normalisation, `$a[$k] = $v` and `ksort`.
- `bencode.dfy` (module `Bencode`): the codec, given twice.
  - As specification functions: `ParseValue` with its four branches, `DecodeFrom`, `Decode` and `Encode`.
  - As imperative methods that follow the PHP code loop by loop: `DecodeAt`, `DecodeDictAt`, `DecodeListAt`, `DecodeIntAt`, `DecodeStringAt`, `EncodeValue`, `HasListKeys`, `EncodeArray`, `EncodeListItems` and `EncodeDictItems`. Each method is proved to compute its specification function.
- `bencode_properties.dfy` (module `BencodeProperties`): the properties.
  - The round trip `decode(encode(v)) == v`, and the cursor arithmetic.
  - Decoded values are canonical, and dictionaries are sorted.
  - A repeated key keeps its last value.
  - The integer grammar and the key-type check.
  - The lossy re-encodings: `de` comes back as `le`, and a dictionary keyed `"0"`, `"1"`, ... comes back as a list.

The by-reference cursor `&$pos` of `decode` is modelled as an input cursor plus the advanced cursor returned with the value. `ParseErrorException` becomes the `Err` case of a `Result`.

BEP 3 says an integer has no leading zeros (`i03e` is invalid). The code does not check this: after the `-0` test and the optional sign, it accepts any digit run (src/Bencode.php:68-79), so `i007e` decodes to 7 and `i-00e` to 0. The model follows the code, and `LeadingZerosAccepted` and `NegativeLeadingZerosAccepted` state this behaviour.

## Model

| member | source | states |
|---|---|---|
| Bytes.IndexOf | src/Bencode.php:82 | `strpos`: the position found holds the byte and no earlier position at or after the start does; no position is found only when no position holds it |
| Bytes.NatDigits | src/Bencode.php:129 | the decimal form of a natural number is a digit run denoting that number, with a leading zero only for 0 itself |
| Bytes.StrLessTotal | src/Bencode.php:121 | the `SORT_STRING` order compares any two different keys one way or the other |
| PhpValues.IntKeyOf | src/Bencode.php:52 | a string key is stored as an integer key only when it is exactly that integer's decimal form |
| PhpValues.NormalizeKey | src/Bencode.php:52 | the key an array stores for a string has that string as its string form, and is a key PHP can hold |
| PhpValues.NormalizeKeyBytes | src/Bencode.php:123 | writing a key with `strval` and storing it again gives the same key |
| PhpValues.Assign | src/Bencode.php:52 | `$a[$k] = $v`: afterwards `$k` maps to `$v`, every other key maps as before, existing keys keep their places, and a new key is appended at the end |
| PhpValues.AssignUnique | src/Bencode.php:52 | assignment never makes a key occur twice |
| PhpValues.KSortPermutes | src/Bencode.php:121 | `ksort` only reorders: the multiset of entries is unchanged |
| PhpValues.KSortSorted | src/Bencode.php:121 | after `ksort` the keys are in `SORT_STRING` order |
| PhpValues.KSortUnique | src/Bencode.php:121 | `ksort` keeps the string forms of distinct keys distinct |
| PhpValues.KSortOfSorted | src/Bencode.php:54 | `ksort` leaves an array whose keys are already strictly ordered unchanged |
| PhpValues.StrictlySortedUnique | src/Bencode.php:121 | two strictly sorted arrangements of the same entries are equal, so the sort result does not depend on the sorting algorithm |
| Bencode.ParseInt | src/Bencode.php:64-80 | a successful integer read moves the cursor forward and stays within the input |
| Bencode.ParseStr | src/Bencode.php:81-87 | a successful string read moves the cursor forward and stays within the input |
| Bencode.ParseValue | src/Bencode.php:40-87 | a successful read of one value moves the cursor forward and stays within the input |
| Bencode.ParseList | src/Bencode.php:56-63 | a successful list read moves the cursor forward and stays within the input |
| Bencode.ParseDict | src/Bencode.php:40-55 | a successful dictionary read moves the cursor forward and stays within the input |
| Bencode.DecodeFrom | src/Bencode.php:88-92 | a call from position 0 succeeds only when it consumes the whole input |
| Bencode.DecodeAt | src/Bencode.php:37-94 | the step-by-step decoder returns the value and cursor of the specification, errors included |
| Bencode.DecodeDictAt | src/Bencode.php:40-55 | the dictionary loop returns what the specification's dictionary branch returns, errors included |
| Bencode.DecodeListAt | src/Bencode.php:56-63 | the list loop returns what the specification's list branch returns, errors included |
| Bencode.DecodeIntAt | src/Bencode.php:64-80 | the integer branch, with its multiplier, returns what the specification's integer branch returns |
| Bencode.DecodeStringAt | src/Bencode.php:81-87 | the string branch returns what the specification's string branch returns |
| Bencode.EncodeValue | src/Bencode.php:102-134 | the step-by-step encoder produces exactly the specification's encoding |
| Bencode.HasListKeys | src/Bencode.php:104-113 | the `$check` loop says "list" exactly when the keys are 0, 1, ..., n-1 in order |
| Bencode.EncodeArray | src/Bencode.php:104-127 | an array is written as `l...e` or as `d...e` over the `ksort`ed entries, as the specification says |
| Bencode.EncodeListItems | src/Bencode.php:114-118 | the list loop's accumulated output is the encoding of the values in order |
| Bencode.EncodeDictItems | src/Bencode.php:119-126 | the dictionary loop's accumulated output is each key as a string followed by its value, in order |
| Bencode.EncodeDictSnoc | src/Bencode.php:122-125 | one more pass of the dictionary loop appends exactly that pair's key and value |
| BencodeProperties.IntBodyRoundTrip | src/Bencode.php:64-80 | the decimal form of any (unbounded) integer is never `-0`, and it parses back to that integer |
| BencodeProperties.LeadingZerosAccepted | src/Bencode.php:76-79 | an integer body with leading zeros is accepted, with the value of its digits |
| BencodeProperties.NegativeLeadingZerosAccepted | src/Bencode.php:68-79 | after `-`, leading zeros are accepted too: `-0` followed by a digit run reads as minus the run's value, so `-00` reads as 0 |
| BencodeProperties.NegativeZeroRejected | src/Bencode.php:68-70 | the exact integer body `-0` is refused, and `i-0e` fails to decode with that error |
| BencodeProperties.NonDigitBodyRejected | src/Bencode.php:72-78 | after one `-` is stripped, an empty or non-digit body is refused, and the error names what was left |
| BencodeProperties.EncodeLookahead | src/Bencode.php:114-131 | every encoding starts with the byte `decode` dispatches on: `i`, a digit, `l` or `d` |
| BencodeProperties.ParseEncoded | src/Bencode.php:37-87 | at any cursor over the encoding of a well-formed value, decoding returns that value and advances the cursor by exactly the encoding's length, whatever follows |
| BencodeProperties.DecodeEncode | src/Bencode.php:37-134 | `decode(encode(v)) == v` for every value whose arrays are lists or canonical dictionaries, over unbounded integers |
| BencodeProperties.CursorAdvance | src/Bencode.php:88-92 | from a cursor past 0 the encoded value is read and the cursor stops right after it; at 0, trailing bytes make the call fail |
| BencodeProperties.TrailingBytesRejected | src/Bencode.php:88-92 | a complete value followed by anything is refused as not fully decoded |
| BencodeProperties.ParsedWellFormed | src/Bencode.php:40-63 | every value the decoder produces has list-keyed lists and canonical dictionaries, all the way down |
| BencodeProperties.ParsedDictWellFormed | src/Bencode.php:43-54 | a decoded dictionary has normal, unique keys in strictly increasing `SORT_STRING` order, whatever the input order or repetitions |
| BencodeProperties.ParsedListCloses | src/Bencode.php:59-63 | a successful list read stops just past the `e` that ends the loop |
| BencodeProperties.ParsedDictCloses | src/Bencode.php:43-55 | a successful dictionary read stops just past the `e` that ends the loop |
| BencodeProperties.KSortIsCanonical | src/Bencode.php:54 | `ksort` turns the entries of a PHP array into a canonical dictionary |
| BencodeProperties.DecodeIsCanonical | src/Bencode.php:37-134 | whatever `decode` accepts survives `encode` and a second `decode` unchanged |
| BencodeProperties.EncodeIgnoresInsertionOrder | src/Bencode.php:120-126 | two dictionaries with the same entries in any insertion order are written identically |
| BencodeProperties.DecodeSortsDictionary | src/Bencode.php:43-54 | a dictionary whose keys arrive in any order is decoded into `SORT_STRING` order |
| BencodeProperties.DuplicateKeyKeepsLast | src/Bencode.php:52 | when a key occurs twice, the value decoded last is the one kept |
| BencodeProperties.NonStringKeyRejected | src/Bencode.php:44-51 | a key that decodes to an integer or an array makes `decode` fail with the invalid-key error naming its type, after the value is read |
| BencodeProperties.EmptyDictionaryBecomesList | src/Bencode.php:104-115 | `de` decodes to the empty array, which is written back as `le` |
| BencodeProperties.NumericKeysBecomeList | src/Bencode.php:104-115 | a dictionary keyed `"0"`, `"1"`, ... decodes to integer keys 0, 1, ... and is written back as a list |

## Left out

- `Bencode::load` and `Bencode::dump` (src/Bencode.php:143-158) only read and write files around `decode` and `encode`, so they are not modelled.
- `encode` of floats, booleans and `null` (the `strlen` fallback at src/Bencode.php:131) is not modelled: the value type holds only integers, strings and arrays.
- PHP's lax behaviour on malformed input is modelled as explicit errors rather than reproduced:
  - `Truncated`: input that ends inside a value. PHP does not stop there. For a container cut short, such as `d`, the out-of-range read at src/Bencode.php:43 gives `""` and the loop goes on. The string branch's `strpos` at src/Bencode.php:82 then returns false, so `$digits` becomes `-$pos` and the cursor is set to 1 (src/Bencode.php:84). PHP can then loop forever (for `d`) or recurse without bound (for `ld`, where the inner `d` at position 1 is read again), where the model returns `Truncated`.
  - `MissingDelimiter`: `strpos` returning false when no `e` or `:` follows.
  - `InvalidLength`: a length prefix that is not a digit run. PHP's `(int)` cast at src/Bencode.php:83 reads such a prefix leniently instead. An empty or non-numeric prefix reads as 0, `-3` reads as -3, and `+3`, ` 3` and `3x` read as 3. So PHP accepts input such as `+3:abc` (as `"abc"`) where the model reports `InvalidLength`.
  - PHP's warnings, and the `ValueError` of newer PHP versions, are not modelled.
- The text of the `ParseErrorException` messages is not modelled. Each error variant carries the data its message names: the key's type, or the rejected body.
- The `null` key/value `break` at src/Bencode.php:46-48 is not modelled: decoding never produces `null`, so the branch is unreachable.
- Integers are unbounded. PHP's `(int)` cast at src/Bencode.php:79 cannot return a magnitude above `PHP_INT_MAX`, and the model does not reproduce that overflow. Only array-key normalisation keeps PHP's 64-bit range.
- BencodeProperties.DecodeEncode: in the source the round trip fails for `PHP_INT_MIN` (-9223372036854775808), a value inside PHP's integer range. `encode` writes `i-9223372036854775808e` (src/Bencode.php:129). `decode` strips the `-` before the cast (src/Bencode.php:72-74), so it casts `9223372036854775808`, which is above `PHP_INT_MAX`, and only then applies the sign (src/Bencode.php:79). The result is therefore not `PHP_INT_MIN`. Over the model's unbounded integers the round trip holds for every integer.
- BencodeProperties.IntBodyRoundTrip: for the same reason, in the source the body `-9223372036854775808` does not read back as `PHP_INT_MIN`, and every body whose magnitude is above `PHP_INT_MAX` overflows. The model's unbounded `ParseIntBody` reads back every integer.
- `ksort` sorts in place with PHP's own algorithm; the model sorts a copy by insertion. The keys of a PHP array are unique, so the result is the same (`PhpValues.StrictlySortedUnique`).
- BencodeProperties.NumericKeysBecomeList: stated for at most ten keys, because `SORT_STRING` puts `"10"` before `"2"`. From eleven keys on, the decoded array is not in list order, and it is written back as a dictionary.
