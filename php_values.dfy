/// The PHP values the codec consumes and produces, and the parts of PHP's array
/// semantics it relies on: integer-like string keys becoming integer keys,
/// `$array[$key] = $value`, and `ksort($array, SORT_STRING)`.
module PhpValues {
  import opened Bytes

  /// An array key: PHP keeps integer keys and string keys apart.
  datatype Key = KInt(i: int) | KStr(s: seq<byte>)

  /// A value the codec handles: an integer, a byte string, or an ordered array
  /// of key/value entries (PHP uses one array type for lists and dictionaries).
  datatype PVal = PInt(n: int) | PStr(s: seq<byte>) | PArr(entries: seq<Entry>)

  type Entry = (Key, PVal)

  const PHP_INT_MAX: int := 0x7FFF_FFFF_FFFF_FFFF
  const PHP_INT_MIN: int := -0x8000_0000_0000_0000

  /// A measure for recursion over nested arrays.
  function Size(v: PVal): nat
    decreases v, 1
  {
    match v
    case PArr(es) => 1 + EntriesSizeWithin(es, v)
    case _ => 1
  }

  /// The sizes of entries that all sit inside `parent` (the parent only serves
  /// the termination argument; see `EntriesSizeParent`).
  function EntriesSizeWithin(es: seq<Entry>, ghost parent: PVal): nat
    requires forall i :: 0 <= i < |es| ==> es[i].1 < parent
    decreases parent, 0, |es|
  {
    if es == [] then 0 else 1 + Size(es[0].1) + EntriesSizeWithin(es[1..], parent)
  }

  lemma {:induction false} EntriesSizeParent(es: seq<Entry>, p1: PVal, p2: PVal)
    requires forall i :: 0 <= i < |es| ==> es[i].1 < p1 && es[i].1 < p2
    ensures EntriesSizeWithin(es, p1) == EntriesSizeWithin(es, p2)
  {
    if es != [] {
      EntriesSizeParent(es[1..], p1, p2);
    }
  }

  function EntriesSize(es: seq<Entry>): nat
  {
    Size(PArr(es)) - 1
  }

  lemma {:induction false} EntriesSizeNil()
    ensures EntriesSize([]) == 0
  {
    assert Size(PArr([])) == 1 + EntriesSizeWithin([], PArr([]));
  }

  lemma {:induction false} EntriesSizeCons(es: seq<Entry>)
    requires es != []
    ensures EntriesSize(es) == 1 + Size(es[0].1) + EntriesSize(es[1..])
  {
    assert Size(PArr(es)) == 1 + EntriesSizeWithin(es, PArr(es));
    assert EntriesSizeWithin(es, PArr(es)) == 1 + Size(es[0].1) + EntriesSizeWithin(es[1..], PArr(es));
    assert Size(PArr(es[1..])) == 1 + EntriesSizeWithin(es[1..], PArr(es[1..]));
    EntriesSizeParent(es[1..], PArr(es), PArr(es[1..]));
  }

  /// Every entry's value is smaller than the entries it belongs to.
  lemma {:induction false} EntrySizeBelow(es: seq<Entry>, i: nat)
    requires i < |es|
    ensures Size(es[i].1) < EntriesSize(es)
  {
    EntriesSizeCons(es);
    if i > 0 {
      EntrySizeBelow(es[1..], i - 1);
    }
  }

  /// `strval($key)`: the bytes of a key as a string.
  function KeyBytes(k: Key): seq<byte>
  {
    match k
    case KInt(n) => Decimal(n)
    case KStr(s) => s
  }

  /// The integer a string key is stored under, if PHP treats it as one: an
  /// optional '-', then "0" or digits without a leading zero (so neither "-0"
  /// nor "05"), denoting a value within PHP's 64-bit integer range.
  function IntKeyOf(s: seq<byte>): (r: Option<int>)
    ensures r.Some? ==> Decimal(r.value) == s
  {
    var neg := |s| > 0 && s[0] == MINUS;
    var digits := if neg then s[1..] else s;
    if !IsDigitRun(digits) then None
    else if digits[0] == ZERO && (|digits| > 1 || neg) then None
    else
      var n := if neg then 0 - DigitsValue(digits) else DigitsValue(digits);
      if n < PHP_INT_MIN || PHP_INT_MAX < n then None
      else
        SignedDigitsDecimal(s, neg, digits);
        Some(n)
  }

  /// A sign and a digit run without a redundant leading zero (and no "-0")
  /// are the decimal form of the number they denote.
  lemma {:induction false} SignedDigitsDecimal(s: seq<byte>, neg: bool, digits: seq<byte>)
    requires s == if neg then [MINUS] + digits else digits
    requires IsDigitRun(digits)
    requires digits[0] == ZERO ==> |digits| == 1 && !neg
    ensures Decimal(if neg then 0 - DigitsValue(digits) else DigitsValue(digits)) == s
  {
    NatDigitsOfValue(digits);
    if neg {
      LeadingDigitPositive(digits);
    }
  }

  /// The decimal form of an integer in range is read back as that integer key.
  lemma {:induction false} IntKeyOfDecimal(n: int)
    requires PHP_INT_MIN <= n <= PHP_INT_MAX
    ensures IntKeyOf(Decimal(n)) == Some(n)
  {
    var s := Decimal(n);
    if n < 0 {
      assert s[1..] == NatDigits(-n);
    }
  }

  /// The key `$array[$s]` is stored under.
  function NormalizeKey(s: seq<byte>): (k: Key)
    ensures KeyBytes(k) == s
    ensures IsNormalKey(k)
  {
    match IntKeyOf(s)
    case Some(n) => KInt(n)
    case None => KStr(s)
  }

  /// A key a PHP array can hold: integer keys are in range, and a string key
  /// is never one that PHP would have turned into an integer.
  predicate IsNormalKey(k: Key)
  {
    match k
    case KInt(n) => PHP_INT_MIN <= n <= PHP_INT_MAX
    case KStr(s) => IntKeyOf(s).None?
  }

  /// Re-reading the string form of a key gives back the same key.
  lemma {:induction false} NormalizeKeyBytes(k: Key)
    requires IsNormalKey(k)
    ensures NormalizeKey(KeyBytes(k)) == k
  {
    if k.KInt? {
      IntKeyOfDecimal(k.i);
    }
  }

  /// Different keys of a PHP array have different string forms.
  lemma {:induction false} KeyBytesInjective(k1: Key, k2: Key)
    requires IsNormalKey(k1) && IsNormalKey(k2)
    requires KeyBytes(k1) == KeyBytes(k2)
    ensures k1 == k2
  {
    NormalizeKeyBytes(k1);
    NormalizeKeyBytes(k2);
  }

  /// The position of the entry with key `k`, if there is one.
  function FindKey(es: seq<Entry>, k: Key): (r: Option<nat>)
    ensures r.Some? ==> r.value < |es| && es[r.value].0 == k
    ensures r.Some? ==> forall j :: 0 <= j < r.value ==> es[j].0 != k
    ensures r.None? ==> forall j :: 0 <= j < |es| ==> es[j].0 != k
  {
    if es == [] then None
    else if es[0].0 == k then Some(0)
    else match FindKey(es[1..], k)
      case None => None
      case Some(j) => Some(j + 1)
  }

  /// `$array[$k]`: the value stored under `k`.
  function Get(es: seq<Entry>, k: Key): Option<PVal>
  {
    match FindKey(es, k)
    case Some(i) => Some(es[i].1)
    case None => None
  }

  /// `$array[$k] = $v`: overwrite the value of an existing key in its place,
  /// or append a new entry at the end.
  function Assign(es: seq<Entry>, k: Key, v: PVal): (r: seq<Entry>)
    ensures Get(r, k) == Some(v)
    ensures forall k' :: k' != k ==> Get(r, k') == Get(es, k')
    ensures |es| <= |r| <= |es| + 1
    ensures forall i :: 0 <= i < |es| ==> r[i].0 == es[i].0
    ensures FindKey(es, k).None? ==> r == es + [(k, v)]
  {
    match FindKey(es, k)
    case Some(i) =>
      var r := es[i := (k, v)];
      assert forall k' :: FindKey(r, k') == FindKey(es, k') by {
        forall k' ensures FindKey(r, k') == FindKey(es, k') {
          FindKeySameKeys(r, es, k');
        }
      }
      r
    case None =>
      var r := es + [(k, v)];
      assert forall j :: 0 <= j < |es| ==> r[j] == es[j];
      assert r[|es|] == (k, v);
      assert FindKey(r, k) == Some(|es|);
      assert forall k' :: k' != k ==> FindKey(r, k') == FindKey(es, k') by {
        forall k' | k' != k ensures FindKey(r, k') == FindKey(es, k') {
          FindKeyAppend(es, (k, v), k');
        }
      }
      r
  }

  /// No two entries share a key (what every PHP array guarantees).
  predicate UniqueKeys(es: seq<Entry>)
  {
    forall i, j :: 0 <= i < j < |es| ==> es[i].0 != es[j].0
  }

  /// Assignment stores only the new entry and entries that were there.
  lemma {:induction false} AssignMembers(es: seq<Entry>, k: Key, v: PVal)
    ensures forall y :: y in Assign(es, k, v) ==> y == (k, v) || y in es
  {
    var r := Assign(es, k, v);
    forall y | y in r ensures y == (k, v) || y in es {
      var i :| 0 <= i < |r| && r[i] == y;
      if i < |es| && r[i] != (k, v) {
        assert r[i] == es[i];
      }
    }
  }

  /// Assignment never makes a key occur twice.
  lemma {:induction false} AssignUnique(es: seq<Entry>, k: Key, v: PVal)
    requires UniqueKeys(es)
    ensures UniqueKeys(Assign(es, k, v))
  {
    var r := Assign(es, k, v);
    if FindKey(es, k).None? {
      forall i, j | 0 <= i < j < |r| ensures r[i].0 != r[j].0 {
        if j == |es| {
          assert r[i] == es[i];
        }
      }
    }
  }

  /// In a PHP array, distinct keys have distinct string forms.
  lemma {:induction false} NormalKeysUniqueBytes(es: seq<Entry>)
    requires forall i :: 0 <= i < |es| ==> IsNormalKey(es[i].0)
    requires UniqueKeys(es)
    ensures UniqueKeyBytes(es)
  {
    forall i, j | 0 <= i < j < |es| ensures KeyBytes(es[i].0) != KeyBytes(es[j].0) {
      if KeyBytes(es[i].0) == KeyBytes(es[j].0) {
        KeyBytesInjective(es[i].0, es[j].0);
      }
    }
  }

  lemma {:induction false} FindKeySameKeys(a: seq<Entry>, b: seq<Entry>, k: Key)
    requires |a| == |b| && forall i :: 0 <= i < |a| ==> a[i].0 == b[i].0
    ensures FindKey(a, k) == FindKey(b, k)
  {
    var ra, rb := FindKey(a, k), FindKey(b, k);
    if ra.Some? && rb.Some? {
      assert !(ra.value < rb.value) && !(rb.value < ra.value);
    }
  }

  lemma {:induction false} FindKeyAppend(es: seq<Entry>, x: Entry, k: Key)
    requires x.0 != k
    ensures FindKey(es + [x], k) == FindKey(es, k)
  {
    var ra, rb := FindKey(es + [x], k), FindKey(es, k);
    assert forall j :: 0 <= j < |es| ==> (es + [x])[j] == es[j];
    if ra.Some? && rb.Some? {
      assert !(ra.value < rb.value) && !(rb.value < ra.value);
    }
  }

  /// No two entries have the same string form of their keys.
  predicate UniqueKeyBytes(es: seq<Entry>)
  {
    forall i, j :: 0 <= i < j < |es| ==> KeyBytes(es[i].0) != KeyBytes(es[j].0)
  }

  /// The keys appear in `SORT_STRING` order (equal keys may sit side by side).
  predicate Sorted(es: seq<Entry>)
  {
    forall i, j :: 0 <= i < j < |es| ==> !StrLess(KeyBytes(es[j].0), KeyBytes(es[i].0))
  }

  /// The keys appear in strictly increasing `SORT_STRING` order.
  predicate StrictlySorted(es: seq<Entry>)
  {
    forall i, j :: 0 <= i < j < |es| ==> StrLess(KeyBytes(es[i].0), KeyBytes(es[j].0))
  }

  /// Insert one entry in front of the first entry whose key does not sort below it.
  function Insert(x: Entry, s: seq<Entry>): (r: seq<Entry>)
    ensures |r| == |s| + 1
  {
    if s == [] then [x]
    else if StrLess(KeyBytes(s[0].0), KeyBytes(x.0)) then [s[0]] + Insert(x, s[1..])
    else [x] + s
  }

  /// Inserting adds exactly the one entry.
  lemma {:induction false} InsertPermutes(x: Entry, s: seq<Entry>)
    ensures multiset(Insert(x, s)) == multiset(s) + multiset{x}
  {
    if s != [] {
      assert s == [s[0]] + s[1..];
      if StrLess(KeyBytes(s[0].0), KeyBytes(x.0)) {
        InsertPermutes(x, s[1..]);
      }
    }
  }

  lemma {:induction false} InsertSize(x: Entry, s: seq<Entry>)
    ensures EntriesSize(Insert(x, s)) == EntriesSize(s) + EntriesSize([x])
  {
    var r := Insert(x, s);
    EntriesSizeCons([x]);
    EntriesSizeNil();
    assert [x][1..] == [];
    if s != [] {
      EntriesSizeCons(r);
      EntriesSizeCons(s);
      if StrLess(KeyBytes(s[0].0), KeyBytes(x.0)) {
        assert r[1..] == Insert(x, s[1..]);
        InsertSize(x, s[1..]);
      } else {
        assert r[1..] == s;
      }
    }
  }

  lemma {:induction false} InsertMembers(x: Entry, s: seq<Entry>)
    ensures forall y :: y in Insert(x, s) <==> y == x || y in s
  {
    var r := Insert(x, s);
    InsertPermutes(x, s);
    forall y ensures y in r <==> y == x || y in s {
      assert y in r <==> y in multiset(r);
      assert y in s <==> y in multiset(s);
    }
  }

  lemma {:induction false} InsertSorted(x: Entry, s: seq<Entry>)
    requires Sorted(s)
    ensures Sorted(Insert(x, s))
  {
    if s == [] {
    } else if StrLess(KeyBytes(s[0].0), KeyBytes(x.0)) {
      var rest := Insert(x, s[1..]);
      var r := [s[0]] + rest;
      InsertSorted(x, s[1..]);
      InsertMembers(x, s[1..]);
      StrLessAsymmetric(KeyBytes(s[0].0), KeyBytes(x.0));
      forall j | 1 <= j < |r| ensures !StrLess(KeyBytes(r[j].0), KeyBytes(r[0].0)) {
        assert r[j] == rest[j - 1];
        assert r[j] in rest;
        if r[j] != x {
          var k :| 0 <= k < |s[1..]| && s[1..][k] == r[j];
          assert s[k + 1] == r[j];
        }
      }
      assert forall i, j :: 1 <= i < j < |r| ==> r[i] == rest[i - 1] && r[j] == rest[j - 1];
    } else {
      var r := [x] + s;
      forall j | 1 <= j < |r| ensures !StrLess(KeyBytes(r[j].0), KeyBytes(x.0)) {
        if j == 1 {
          StrLessIrreflexive(KeyBytes(s[0].0));
        }
        NotLessTransitive(KeyBytes(x.0), KeyBytes(s[0].0), KeyBytes(r[j].0));
      }
    }
  }

  lemma {:induction false} InsertUnique(x: Entry, s: seq<Entry>)
    requires UniqueKeyBytes(s)
    requires forall y :: y in s ==> KeyBytes(y.0) != KeyBytes(x.0)
    ensures UniqueKeyBytes(Insert(x, s))
  {
    if s != [] && StrLess(KeyBytes(s[0].0), KeyBytes(x.0)) {
      var rest := Insert(x, s[1..]);
      var r := [s[0]] + rest;
      InsertUnique(x, s[1..]);
      InsertMembers(x, s[1..]);
      forall j | 1 <= j < |r| ensures KeyBytes(r[0].0) != KeyBytes(r[j].0) {
        assert r[j] in rest;
        if r[j] != x {
          var k :| 0 <= k < |s[1..]| && s[1..][k] == r[j];
          assert s[k + 1] == r[j];
        }
      }
      assert forall i, j :: 1 <= i < j < |r| ==> r[i] == rest[i - 1] && r[j] == rest[j - 1];
    }
  }

  /// `ksort($array, SORT_STRING)`: the entries reordered by the string form of
  /// their keys (insertion sort; PHP arrays never hold two equal keys, so the
  /// result does not depend on the sorting algorithm).
  function KSort(es: seq<Entry>): (r: seq<Entry>)
    ensures |r| == |es|
  {
    if es == [] then [] else Insert(es[0], KSort(es[1..]))
  }

  /// `ksort` only reorders: the same entries, each as often.
  lemma {:induction false} KSortPermutes(es: seq<Entry>)
    ensures multiset(KSort(es)) == multiset(es)
  {
    if es != [] {
      KSortPermutes(es[1..]);
      InsertPermutes(es[0], KSort(es[1..]));
      assert es == [es[0]] + es[1..];
    }
  }

  lemma {:induction false} KSortSize(es: seq<Entry>)
    ensures EntriesSize(KSort(es)) == EntriesSize(es)
  {
    if es != [] {
      KSortSize(es[1..]);
      InsertSize(es[0], KSort(es[1..]));
      EntriesSizeCons(es);
      EntriesSizeCons([es[0]]);
      EntriesSizeNil();
      assert [es[0]][1..] == [];
    }
  }

  lemma {:induction false} KSortMembers(es: seq<Entry>)
    ensures forall y :: y in KSort(es) <==> y in es
  {
    var r := KSort(es);
    KSortPermutes(es);
    forall y ensures y in r <==> y in es {
      assert y in r <==> y in multiset(r);
      assert y in es <==> y in multiset(es);
    }
  }

  /// `ksort` leaves the keys in `SORT_STRING` order.
  lemma {:induction false} KSortSorted(es: seq<Entry>)
    ensures Sorted(KSort(es))
  {
    if es != [] {
      KSortSorted(es[1..]);
      InsertSorted(es[0], KSort(es[1..]));
    }
  }

  /// `ksort` keeps the keys of an array apart.
  lemma {:induction false} KSortUnique(es: seq<Entry>)
    requires UniqueKeyBytes(es)
    ensures UniqueKeyBytes(KSort(es))
  {
    if es != [] {
      var tail := es[1..];
      assert UniqueKeyBytes(tail) by {
        forall i, j | 0 <= i < j < |tail| ensures KeyBytes(tail[i].0) != KeyBytes(tail[j].0) {
          assert tail[i] == es[i + 1] && tail[j] == es[j + 1];
        }
      }
      KSortUnique(tail);
      KSortMembers(tail);
      forall y | y in KSort(tail) ensures KeyBytes(y.0) != KeyBytes(es[0].0) {
        var k :| 0 <= k < |tail| && tail[k] == y;
        assert es[k + 1] == y;
      }
      InsertUnique(es[0], KSort(tail));
    }
  }

  /// Sorted with unique keys is sorted strictly.
  lemma {:induction false} SortedUniqueIsStrict(es: seq<Entry>)
    requires Sorted(es) && UniqueKeyBytes(es)
    ensures StrictlySorted(es)
  {
    forall i, j | 0 <= i < j < |es| ensures StrLess(KeyBytes(es[i].0), KeyBytes(es[j].0)) {
      StrLessTotal(KeyBytes(es[i].0), KeyBytes(es[j].0));
    }
  }

  /// Strictly sorted entries have unique keys.
  lemma {:induction false} StrictIsSortedUnique(es: seq<Entry>)
    requires StrictlySorted(es)
    ensures Sorted(es) && UniqueKeyBytes(es)
  {
    forall i, j | 0 <= i < j < |es|
      ensures !StrLess(KeyBytes(es[j].0), KeyBytes(es[i].0))
      ensures KeyBytes(es[i].0) != KeyBytes(es[j].0)
    {
      StrLessAsymmetric(KeyBytes(es[i].0), KeyBytes(es[j].0));
      StrLessIrreflexive(KeyBytes(es[i].0));
    }
  }

  /// `ksort` leaves an array whose keys are already in strict order as it is.
  lemma {:induction false} KSortOfSorted(es: seq<Entry>)
    requires StrictlySorted(es)
    ensures KSort(es) == es
  {
    if es != [] {
      KSortOfSorted(es[1..]);
      if |es| > 1 {
        StrLessAsymmetric(KeyBytes(es[0].0), KeyBytes(es[1].0));
      }
      assert es == [es[0]] + es[1..];
    }
  }

  /// Two strictly sorted arrangements of the same entries are the same sequence.
  lemma {:induction false} StrictlySortedUnique(a: seq<Entry>, b: seq<Entry>)
    requires StrictlySorted(a) && StrictlySorted(b)
    requires multiset(a) == multiset(b)
    ensures a == b
  {
    if a == [] || b == [] {
      assert |a| == |multiset(a)| == |multiset(b)| == |b|;
    } else {
      SameFirst(a, b);
      assert a == [a[0]] + a[1..] && b == [b[0]] + b[1..];
      assert multiset(a) == multiset{a[0]} + multiset(a[1..]);
      assert multiset(b) == multiset{b[0]} + multiset(b[1..]);
      assert multiset(a[1..]) == multiset(a) - multiset{a[0]};
      assert multiset(b[1..]) == multiset(b) - multiset{b[0]};
      StrictlySortedTail(a);
      StrictlySortedTail(b);
      StrictlySortedUnique(a[1..], b[1..]);
    }
  }

  lemma {:induction false} SameFirst(a: seq<Entry>, b: seq<Entry>)
    requires StrictlySorted(a) && StrictlySorted(b)
    requires multiset(a) == multiset(b) && a != [] && b != []
    ensures a[0] == b[0]
  {
    assert a[0] in multiset(b) && b[0] in multiset(a);
    if a[0] != b[0] {
      var i :| 0 <= i < |a| && a[i] == b[0];
      var j :| 0 <= j < |b| && b[j] == a[0];
      StrLessAsymmetric(KeyBytes(a[0].0), KeyBytes(a[i].0));
    }
  }

  lemma {:induction false} StrictlySortedTail(a: seq<Entry>)
    requires StrictlySorted(a) && a != []
    ensures StrictlySorted(a[1..])
  {
    forall i, j | 0 <= i < j < |a| - 1 ensures StrLess(KeyBytes(a[1..][i].0), KeyBytes(a[1..][j].0)) {
      assert a[1..][i] == a[i + 1] && a[1..][j] == a[j + 1];
    }
  }
}
