/**
 * Choosing and converting the roots.
 *
 * The input document maps keys to shares; one key, "keys", holds `n` and
 * `k` instead. The solver drops that key, sorts the rest by their value as
 * 32-bit integers, and then walks the sorted keys, converting the share of
 * each into a root, until it has `m` roots or runs out of keys.
 */
module Selection {
  import opened Outcomes
  import Radix
  import Sequences

  const MetaKey := "keys"

  /** A share as the document states it: a base and a digit string, both text. */
  datatype Share = Share(base: string, value: string)

  /** The exceptions the selection can raise. */
  datatype Error =
    | NumberFormat(cause: Radix.ParseError)   // a key, a base or a value is not a number
    | NotAnObject(key: string)                // the entry under a key is not a share object

  /** The document's keys without the "keys" entry. */
  function ShareKeys(keys: seq<string>): (r: seq<string>)
    ensures forall key :: key in r <==> key in keys && key != MetaKey
    ensures |r| <= |keys|
  {
    if keys == [] then []
    else (if keys[0] == MetaKey then [] else [keys[0]]) + ShareKeys(keys[1..])
  }

  predicate Numeric(key: string) {
    Radix.ParseInt(key).Ok?
  }

  function KeyValue(key: string): int
    requires Numeric(key)
  {
    Radix.ParseInt(key).value
  }

  predicate AllNumeric(ks: seq<string>) {
    forall i :: 0 <= i < |ks| ==> Numeric(ks[i])
  }

  predicate SortedByValue(ks: seq<string>) {
    AllNumeric(ks) && forall i, j :: 0 <= i < j < |ks| ==> KeyValue(ks[i]) <= KeyValue(ks[j])
  }

  /** The value of every key, parsed once. */
  function ValueTable(ks: seq<string>): (t: map<string, int>)
    requires AllNumeric(ks)
    ensures forall key :: key in ks ==> key in t && t[key] == KeyValue(key)
  {
    map key | key in ks :: KeyValue(key)
  }

  /** The value the comparator sees for `key`. */
  function Lookup(values: map<string, int>, key: string): int {
    if key in values then values[key] else 0
  }

  predicate SortedBy(ks: seq<string>, values: map<string, int>) {
    forall i, j :: 0 <= i < j < |ks| ==> Lookup(values, ks[i]) <= Lookup(values, ks[j])
  }

  /** Places `key` after every key whose value is not larger, so equal keys keep their order. */
  function Insert(sorted: seq<string>, key: string, values: map<string, int>): seq<string> {
    if sorted == [] then [key]
    else
      var n := |sorted|;
      if Lookup(values, sorted[n - 1]) <= Lookup(values, key) then sorted + [key]
      else Insert(sorted[..n - 1], key, values) + [sorted[n - 1]]
  }

  lemma {:induction false} InsertPermutes(sorted: seq<string>, key: string, values: map<string, int>)
    ensures multiset(Insert(sorted, key, values)) == multiset(sorted) + multiset{key}
    decreases |sorted|
  {
    if sorted != [] {
      var n := |sorted|;
      assert sorted == sorted[..n - 1] + [sorted[n - 1]];
      InsertPermutes(sorted[..n - 1], key, values);
    }
  }

  lemma AppendSorted(ks: seq<string>, last: string, values: map<string, int>)
    requires SortedBy(ks, values)
    requires forall i :: 0 <= i < |ks| ==> Lookup(values, ks[i]) <= Lookup(values, last)
    ensures SortedBy(ks + [last], values)
  {
  }

  lemma BoundedByMultiset(ks: seq<string>, ms: multiset<string>, values: map<string, int>, bound: int)
    requires multiset(ks) == ms
    requires forall x :: x in ms ==> Lookup(values, x) <= bound
    ensures forall i :: 0 <= i < |ks| ==> Lookup(values, ks[i]) <= bound
  {
    forall i | 0 <= i < |ks|
      ensures Lookup(values, ks[i]) <= bound
    {
      assert ks[i] in multiset(ks);
    }
  }

  /** Inserting a key below a bound into keys below it leaves every key below it. */
  lemma InsertBounded(front: seq<string>, key: string, values: map<string, int>, bound: int)
    requires forall i :: 0 <= i < |front| ==> Lookup(values, front[i]) <= bound
    requires Lookup(values, key) <= bound
    ensures forall i :: 0 <= i < |Insert(front, key, values)| ==> Lookup(values, Insert(front, key, values)[i]) <= bound
  {
    InsertPermutes(front, key, values);
    forall x | x in multiset(front) + multiset{key}
      ensures Lookup(values, x) <= bound
    {
      if x != key {
        assert x in front;
      }
    }
    BoundedByMultiset(Insert(front, key, values), multiset(front) + multiset{key}, values, bound);
  }

  lemma {:induction false} InsertSorted(sorted: seq<string>, key: string, values: map<string, int>)
    requires SortedBy(sorted, values)
    ensures SortedBy(Insert(sorted, key, values), values)
    decreases |sorted|
  {
    if sorted != [] {
      var n := |sorted|;
      var front, last := sorted[..n - 1], sorted[n - 1];
      if Lookup(values, key) < Lookup(values, last) {
        assert SortedBy(front, values);
        InsertSorted(front, key, values);
        InsertBounded(front, key, values, Lookup(values, last));
        AppendSorted(Insert(front, key, values), last, values);
      }
    }
  }

  /** `List.sort` with a comparator on the value of each key: insertion from the front. */
  function SortBy(ks: seq<string>, values: map<string, int>): seq<string> {
    if ks == [] then []
    else
      var n := |ks|;
      Insert(SortBy(ks[..n - 1], values), ks[n - 1], values)
  }

  lemma {:induction false} SortByPermutes(ks: seq<string>, values: map<string, int>)
    ensures multiset(SortBy(ks, values)) == multiset(ks)
    decreases |ks|
  {
    if ks != [] {
      var n := |ks|;
      assert ks == ks[..n - 1] + [ks[n - 1]];
      SortByPermutes(ks[..n - 1], values);
      InsertPermutes(SortBy(ks[..n - 1], values), ks[n - 1], values);
    }
  }

  lemma {:induction false} SortBySorted(ks: seq<string>, values: map<string, int>)
    ensures SortedBy(SortBy(ks, values), values)
    decreases |ks|
  {
    if ks != [] {
      var n := |ks|;
      SortBySorted(ks[..n - 1], values);
      InsertSorted(SortBy(ks[..n - 1], values), ks[n - 1], values);
    }
  }

  /** Sorting by the parsed values sorts numerically. */
  lemma SortedByTable(ks: seq<string>, sorted: seq<string>)
    requires AllNumeric(ks)
    requires multiset(sorted) == multiset(ks)
    requires SortedBy(sorted, ValueTable(ks))
    ensures SortedByValue(sorted)
  {
    var values := ValueTable(ks);
    forall i | 0 <= i < |sorted|
      ensures sorted[i] in ks && Numeric(sorted[i]) && Lookup(values, sorted[i]) == KeyValue(sorted[i])
    {
      assert sorted[i] in multiset(ks);
    }
  }

  /** The first key that is not a 32-bit integer, as the error it raises. */
  function FirstBadKey(ks: seq<string>): (e: Radix.ParseError)
    requires !AllNumeric(ks)
  {
    if !Numeric(ks[0]) then Radix.ParseInt(ks[0]).error else FirstBadKey(ks[1..])
  }

  /**
   * The share keys in ascending numeric order. A list of fewer than two keys
   * is already sorted and no key is compared, so none is parsed.
   */
  function NumericKeys(keys: seq<string>): (r: Result<seq<string>, Error>)
    ensures r.Err? <==> |ShareKeys(keys)| >= 2 && !AllNumeric(ShareKeys(keys))
    ensures r.Ok? ==> multiset(r.value) == multiset(ShareKeys(keys))
    ensures r.Ok? && |r.value| >= 2 ==> SortedByValue(r.value)
  {
    var shareKeys := ShareKeys(keys);
    if |shareKeys| < 2 then Ok(shareKeys)
    else if !AllNumeric(shareKeys) then Err(NumberFormat(FirstBadKey(shareKeys)))
    else
      var sorted := SortBy(shareKeys, ValueTable(shareKeys));
      SortByPermutes(shareKeys, ValueTable(shareKeys));
      SortBySorted(shareKeys, ValueTable(shareKeys));
      SortedByTable(shareKeys, sorted);
      Ok(sorted)
  }

  /** The keys the loop visits before `count >= m` stops it: at most `m`, from the front. */
  function Selected(ks: seq<string>, m: int): (r: seq<string>)
    ensures |r| == if m <= 0 then 0 else if m < |ks| then m else |ks|
    ensures r == ks[..|r|]
  {
    if m <= 0 then [] else if m < |ks| then ks[..m] else ks
  }

  /** The root a share stands for: its base read as an `int`, then its value read in that base. */
  function ConvertShare(key: string, shares: map<string, Share>): (r: Result<int, Error>)
    ensures key !in shares ==> r == Err(NotAnObject(key))
    ensures r.Ok? ==> exists base :: Radix.ParseInt(shares[key].base) == Ok(base)
                                     && Radix.Convert(shares[key].value, base) == Ok(r.value)
  {
    if key !in shares then Err(NotAnObject(key))
    else
      var share := shares[key];
      match Radix.ParseInt(share.base)
      case Err(e) => Err(NumberFormat(e))
      case Ok(base) =>
        match Radix.Convert(share.value, base)
        case Err(e) => Err(NumberFormat(e))
        case Ok(v) => Ok(v)
  }

  /** The roots of the given keys in order, or the error of the first key that fails. */
  function ConvertShares(ks: seq<string>, shares: map<string, Share>): (r: Result<seq<int>, Error>)
    ensures r.Ok? ==> |r.value| == |ks|
  {
    if ks == [] then Ok([])
    else
      var n := |ks|;
      match ConvertShares(ks[..n - 1], shares)
      case Err(e) => Err(e)
      case Ok(roots) =>
        match ConvertShare(ks[n - 1], shares)
        case Err(e) => Err(e)
        case Ok(v) => Ok(roots + [v])
  }

  /** The conversion succeeds exactly when every share converts, and then holds each share's root. */
  lemma {:induction false} ConvertSharesMeaning(ks: seq<string>, shares: map<string, Share>)
    ensures ConvertShares(ks, shares).Ok? <==> forall i :: 0 <= i < |ks| ==> ConvertShare(ks[i], shares).Ok?
    ensures ConvertShares(ks, shares).Ok? ==>
              forall i :: 0 <= i < |ks| ==> ConvertShare(ks[i], shares) == Ok(ConvertShares(ks, shares).value[i])
    decreases |ks|
  {
    if ks != [] {
      var n := |ks|;
      var front := ks[..n - 1];
      ConvertSharesMeaning(front, shares);
      assert forall i :: 0 <= i < n - 1 ==> front[i] == ks[i];
      if ConvertShares(front, shares).Ok? && ConvertShare(ks[n - 1], shares).Ok? {
        var roots := ConvertShares(front, shares).value;
        var all := ConvertShares(ks, shares).value;
        assert all == roots + [ConvertShare(ks[n - 1], shares).value];
        assert forall i :: 0 <= i < n - 1 ==> all[i] == roots[i];
      } else if ConvertShares(front, shares).Err? {
        var i :| 0 <= i < n - 1 && ConvertShare(front[i], shares).Err?;
        assert ConvertShare(ks[i], shares).Err?;
      }
    }
  }

  /** The roots collected by the loop: a failure at one key is the failure of the whole run. */
  lemma {:induction false} ConvertSharesFirstError(ks: seq<string>, shares: map<string, Share>, i: nat)
    requires i < |ks|
    requires ConvertShares(ks[..i], shares).Ok?
    requires ConvertShare(ks[i], shares).Err?
    ensures ConvertShares(ks, shares) == Err(ConvertShare(ks[i], shares).error)
    decreases |ks|
  {
    var n := |ks|;
    if i < n - 1 {
      assert ks[..n - 1][..i] == ks[..i];
      ConvertSharesFirstError(ks[..n - 1], shares, i);
    } else {
      assert ks[..n - 1] == ks[..i];
    }
  }

  /**
   * The collecting loop: walk the sorted keys, stop once `m` roots are taken,
   * and convert the share under each key.
   */
  method CollectRoots(numericKeys: seq<string>, shares: map<string, Share>, m: int)
    returns (r: Result<seq<int>, Error>)
    ensures r == ConvertShares(Selected(numericKeys, m), shares)
  {
    ghost var sel := Selected(numericKeys, m);
    var rootsList: seq<int> := [];
    var count := 0;
    for idx := 0 to |numericKeys|
      invariant count == idx <= |sel|
      invariant ConvertShares(numericKeys[..idx], shares) == Ok(rootsList)
    {
      if count >= m {
        break;
      }
      var key := numericKeys[idx];
      assert sel[..idx] == numericKeys[..idx] && sel[idx] == key;
      if key !in shares {
        ConvertSharesFirstError(sel, shares, idx);
        return Err(NotAnObject(key));
      }
      var share := shares[key];
      var base := Radix.ParseInt(share.base);
      if base.Err? {
        ConvertSharesFirstError(sel, shares, idx);
        return Err(NumberFormat(base.error));
      }
      var root := Radix.Convert(share.value, base.value);
      if root.Err? {
        ConvertSharesFirstError(sel, shares, idx);
        return Err(NumberFormat(root.error));
      }
      assert numericKeys[..idx + 1][..idx] == numericKeys[..idx];
      rootsList := rootsList + [root.value];
      count := count + 1;
    }
    assert numericKeys[..count] == sel;
    r := Ok(rootsList);
  }

  /** In a sorted list, nothing after a prefix is smaller than anything in it. */
  lemma PrefixSmallest(sorted: seq<string>, t: nat, values: map<string, int>)
    requires SortedBy(sorted, values) && t <= |sorted|
    ensures forall a, b :: a in sorted[..t] && b in sorted && b !in sorted[..t] ==>
              Lookup(values, a) <= Lookup(values, b)
  {
    forall a, b | a in sorted[..t] && b in sorted && b !in sorted[..t]
      ensures Lookup(values, a) <= Lookup(values, b)
    {
      var i :| 0 <= i < t && sorted[..t][i] == a;
      var j :| 0 <= j < |sorted| && sorted[j] == b;
    }
  }

  lemma SortedPrefix(ks: seq<string>, t: nat)
    requires SortedByValue(ks) && t <= |ks|
    ensures SortedByValue(ks[..t])
  {
  }

  lemma SortedLength(keys: seq<string>)
    requires NumericKeys(keys).Ok?
    ensures |NumericKeys(keys).value| == |ShareKeys(keys)|
    ensures forall key :: key in NumericKeys(keys).value <==> key in ShareKeys(keys)
  {
    var sorted, shareKeys := NumericKeys(keys).value, ShareKeys(keys);
    assert |multiset(sorted)| == |multiset(shareKeys)|;
    forall key
      ensures key in sorted <==> key in shareKeys
    {
      assert key in sorted <==> key in multiset(sorted);
    }
  }

  lemma SelectedSmallest(keys: seq<string>, m: int)
    requires NumericKeys(keys).Ok?
    ensures var sel := Selected(NumericKeys(keys).value, m);
      forall a, b :: a in sel && b in ShareKeys(keys) && b !in sel ==>
        Numeric(a) && Numeric(b) && KeyValue(a) <= KeyValue(b)
  {
    var shareKeys := ShareKeys(keys);
    var sorted := NumericKeys(keys).value;
    var sel := Selected(sorted, m);
    SortedLength(keys);
    if |shareKeys| >= 2 {
      var values := ValueTable(shareKeys);
      assert sorted == SortBy(shareKeys, values);
      SortBySorted(shareKeys, values);
      PrefixSmallest(sorted, |sel|, values);
    } else {
      assert sorted == shareKeys;
    }
  }

  /** The selected keys are share keys, as many as `m` allows and the document has. */
  lemma SelectedKeys(keys: seq<string>, m: int)
    requires NumericKeys(keys).Ok?
    ensures forall key :: key in Selected(NumericKeys(keys).value, m) ==> key in ShareKeys(keys)
    ensures |Selected(NumericKeys(keys).value, m)|
         == if m <= 0 then 0 else if m < |ShareKeys(keys)| then m else |ShareKeys(keys)|
  {
    var sorted := NumericKeys(keys).value;
    SortedLength(keys);
    forall key | key in Selected(sorted, m)
      ensures key in ShareKeys(keys)
    {
      assert key in sorted;
    }
  }

  /**
   * What is selected: never the "keys" entry, as many keys as `m` allows and
   * the document has, in ascending numeric order, and no unselected share key
   * is smaller than a selected one.
   */
  lemma SelectionProperties(keys: seq<string>, m: int)
    requires NumericKeys(keys).Ok?
    ensures MetaKey !in Selected(NumericKeys(keys).value, m)
    ensures forall key :: key in Selected(NumericKeys(keys).value, m) ==> key in keys
    ensures |Selected(NumericKeys(keys).value, m)|
         == if m <= 0 then 0 else if m < |ShareKeys(keys)| then m else |ShareKeys(keys)|
    ensures |Selected(NumericKeys(keys).value, m)| >= 2 ==> SortedByValue(Selected(NumericKeys(keys).value, m))
    ensures forall a, b ::
              (a in Selected(NumericKeys(keys).value, m) && b in ShareKeys(keys) &&
               b !in Selected(NumericKeys(keys).value, m)) ==>
              Numeric(a) && Numeric(b) && KeyValue(a) <= KeyValue(b)
  {
    var sorted := NumericKeys(keys).value;
    var sel := Selected(sorted, m);
    SelectedKeys(keys, m);
    SelectedSmallest(keys, m);
    if |sel| >= 2 {
      SortedPrefix(sorted, |sel|);
    }
  }

  /** No two different keys parse to the same value ("1" and "01" would). */
  predicate DistinctValues(ks: seq<string>) {
    forall x, y :: x in ks && y in ks && Numeric(x) && Numeric(y) && KeyValue(x) == KeyValue(y) ==> x == y
  }

  lemma {:induction false} ShareKeysCount(keys: seq<string>, key: string)
    ensures multiset(ShareKeys(keys))[key] == if key == MetaKey then 0 else multiset(keys)[key]
    decreases |keys|
  {
    if keys != [] {
      assert keys == [keys[0]] + keys[1..];
      ShareKeysCount(keys[1..], key);
    }
  }

  /** Reordering the document's keys reorders its share keys. */
  lemma ShareKeysReordered(keys: seq<string>, keys': seq<string>)
    requires multiset(keys) == multiset(keys')
    ensures multiset(ShareKeys(keys)) == multiset(ShareKeys(keys'))
  {
    forall key
      ensures multiset(ShareKeys(keys))[key] == multiset(ShareKeys(keys'))[key]
    {
      ShareKeysCount(keys, key);
      ShareKeysCount(keys', key);
    }
  }

  lemma AllNumericMembers(ks: seq<string>, ks': seq<string>)
    requires multiset(ks) == multiset(ks')
    ensures AllNumeric(ks) <==> AllNumeric(ks')
  {
    if AllNumeric(ks) {
      forall i | 0 <= i < |ks'|
        ensures Numeric(ks'[i])
      {
        assert ks'[i] in multiset(ks);
      }
    }
    if AllNumeric(ks') {
      forall i | 0 <= i < |ks|
        ensures Numeric(ks[i])
      {
        assert ks[i] in multiset(ks');
      }
    }
  }

  predicate DistinctBy(ks: seq<string>, values: map<string, int>) {
    forall x, y :: x in ks && y in ks && Lookup(values, x) == Lookup(values, y) ==> x == y
  }

  /** Of two sorted orders of the same keys, both end in the key of the largest value. */
  lemma SameLast(a: seq<string>, b: seq<string>, values: map<string, int>)
    requires |a| > 0 && multiset(a) == multiset(b)
    requires SortedBy(a, values) && SortedBy(b, values) && DistinctBy(a, values)
    ensures |b| == |a| && a[|a| - 1] == b[|b| - 1]
  {
    assert |a| == |multiset(a)| == |b|;
    var n := |a|;
    var x, y := a[n - 1], b[n - 1];
    assert x in multiset(b);
    var j :| 0 <= j < n && b[j] == x;
    assert y in multiset(a);
    var i :| 0 <= i < n && a[i] == y;
    assert Lookup(values, x) <= Lookup(values, y) by {
      if j < n - 1 {
        assert Lookup(values, b[j]) <= Lookup(values, b[n - 1]);
      }
    }
    assert Lookup(values, y) <= Lookup(values, x) by {
      if i < n - 1 {
        assert Lookup(values, a[i]) <= Lookup(values, a[n - 1]);
      }
    }
    assert x in a && y in a;
    assert x == y;
  }

  lemma DropLast(a: seq<string>, b: seq<string>)
    requires |a| > 0 && |b| == |a| && a[|a| - 1] == b[|b| - 1] && multiset(a) == multiset(b)
    ensures multiset(a[..|a| - 1]) == multiset(b[..|b| - 1])
  {
    var n := |a|;
    Sequences.SplitLast(a);
    Sequences.SplitLast(b);
    assert multiset(a) == multiset(a[..n - 1]) + multiset{a[n - 1]};
    assert multiset(b) == multiset(b[..n - 1]) + multiset{a[n - 1]};
    assert multiset(a[..n - 1]) == multiset(a) - multiset{a[n - 1]};
    assert multiset(b[..n - 1]) == multiset(b) - multiset{a[n - 1]};
  }

  lemma SortedFront(a: seq<string>, values: map<string, int>)
    requires |a| > 0 && SortedBy(a, values)
    ensures SortedBy(a[..|a| - 1], values)
  {
  }

  lemma DistinctFront(a: seq<string>, values: map<string, int>)
    requires |a| > 0 && DistinctBy(a, values)
    ensures DistinctBy(a[..|a| - 1], values)
  {
    assert forall k :: k in a[..|a| - 1] ==> k in a;
  }

  /** Two sorted orders of the same keys agree when no two keys share a value. */
  lemma {:induction false} SortedUnique(a: seq<string>, b: seq<string>, values: map<string, int>)
    requires multiset(a) == multiset(b)
    requires SortedBy(a, values) && SortedBy(b, values) && DistinctBy(a, values)
    ensures a == b
    decreases |a|
  {
    if |a| > 0 {
      var n := |a|;
      SameLast(a, b, values);
      DropLast(a, b);
      SortedFront(a, values);
      SortedFront(b, values);
      DistinctFront(a, values);
      SortedUnique(a[..n - 1], b[..n - 1], values);
      Sequences.SplitLast(a);
      Sequences.SplitLast(b);
    } else {
      assert |b| == |multiset(b)| == 0;
    }
  }

  lemma SmallUnique(a: seq<string>, b: seq<string>)
    requires multiset(a) == multiset(b) && |a| < 2
    ensures a == b
  {
    assert |a| == |multiset(a)| == |b|;
    if |a| == 1 {
      assert a[0] in multiset(b);
    }
  }

  /**
   * The order in which the document lists its keys does not matter: the keys
   * fail to sort in either order or in neither, and otherwise sort alike,
   * unless two of them parse to the same value.
   */
  lemma NumericKeysReordered(keys: seq<string>, keys': seq<string>)
    requires multiset(keys) == multiset(keys')
    requires DistinctValues(ShareKeys(keys))
    ensures NumericKeys(keys).Err? <==> NumericKeys(keys').Err?
    ensures NumericKeys(keys).Ok? ==> NumericKeys(keys) == NumericKeys(keys')
  {
    var sk, sk' := ShareKeys(keys), ShareKeys(keys');
    ShareKeysReordered(keys, keys');
    assert |sk| == |multiset(sk)| == |sk'|;
    AllNumericMembers(sk, sk');
    if |sk| < 2 {
      SmallUnique(sk, sk');
    } else if AllNumeric(sk) {
      SortedAlike(sk, sk');
    }
  }

  lemma SortedAlike(sk: seq<string>, sk': seq<string>)
    requires multiset(sk) == multiset(sk') && AllNumeric(sk) && AllNumeric(sk')
    requires DistinctValues(sk)
    ensures SortBy(sk, ValueTable(sk)) == SortBy(sk', ValueTable(sk'))
  {
    var values := ValueTable(sk);
    assert forall key :: key in sk <==> key in multiset(sk);
    assert forall key :: key in sk' <==> key in multiset(sk');
    assert ValueTable(sk') == values;
    var a, b := SortBy(sk, values), SortBy(sk', values);
    SortByPermutes(sk, values);
    SortByPermutes(sk', values);
    SortBySorted(sk, values);
    SortBySorted(sk', values);
    forall x, y | x in a && y in a && Lookup(values, x) == Lookup(values, y)
      ensures x == y
    {
      assert x in multiset(a) && y in multiset(a);
    }
    SortedUnique(a, b, values);
  }

  lemma SmallKeysParse()
    ensures Radix.ParseInt("1") == Ok(1) && Radix.ParseInt("2") == Ok(2)
    ensures Radix.ParseInt("3") == Ok(3) && Radix.ParseInt("6") == Ok(6)
  {
    assert "1"[..0] == [] && "2"[..0] == [] && "3"[..0] == [] && "6"[..0] == [];
  }

  lemma InsertStep(front: seq<string>, last: string, key: string, values: map<string, int>)
    ensures Insert(front + [last], key, values)
         == if Lookup(values, last) <= Lookup(values, key) then front + [last, key] else Insert(front, key, values) + [last]
  {
    assert (front + [last])[..|front|] == front;
  }

  lemma SortByStep(front: seq<string>, key: string, values: map<string, int>)
    ensures SortBy(front + [key], values) == Insert(SortBy(front, values), key, values)
  {
    assert (front + [key])[..|front|] == front;
  }

  predicate SmallValues(a: string, b: string, c: string, d: string, values: map<string, int>) {
    Lookup(values, a) == 6 && Lookup(values, b) == 1 && Lookup(values, c) == 2 && Lookup(values, d) == 3
  }

  lemma SortExample2(a: string, b: string, c: string, d: string, values: map<string, int>)
    requires SmallValues(a, b, c, d, values)
    ensures SortBy([a, b], values) == [b, a]
  {
    SortByStep([], a, values);
    assert [] + [a] == [a];
    SortByStep([a], b, values);
    InsertStep([], a, b, values);
  }

  lemma SortExample3(a: string, b: string, c: string, d: string, values: map<string, int>)
    requires SmallValues(a, b, c, d, values)
    ensures SortBy([a, b, c], values) == [b, c, a]
  {
    SortExample2(a, b, c, d, values);
    SortByStep([a, b], c, values);
    assert [a, b] + [c] == [a, b, c];
    InsertStep([b], a, c, values);
    assert [b] + [a] == [b, a];
    InsertStep([], b, c, values);
    assert [] + [b] == [b];
  }

  /** Sorting four keys whose values are 6, 1, 2 and 3, in that order. */
  lemma SortExample(a: string, b: string, c: string, d: string, values: map<string, int>)
    requires SmallValues(a, b, c, d, values)
    ensures SortBy([a, b, c, d], values) == [b, c, d, a]
  {
    SortExample3(a, b, c, d, values);
    SortByStep([a, b, c], d, values);
    assert [a, b, c] + [d] == [a, b, c, d];
    InsertStep([b, c], a, d, values);
    assert [b, c] + [a] == [b, c, a];
    InsertStep([b], c, d, values);
    assert [b] + [c] == [b, c];
  }

  lemma ShareKeysExample()
    ensures ShareKeys(["keys", "6", "1", "2", "3"]) == ["6", "1", "2", "3"]
  {
    var keys := ["keys", "6", "1", "2", "3"];
    var ks := ["6", "1", "2", "3"];
    assert keys[1..] == ks && ks[1..] == ["1", "2", "3"];
    assert ["1", "2", "3"][1..] == ["2", "3"] && ["2", "3"][1..] == ["3"] && ["3"][1..] == [];
  }

  lemma ValueTableExample()
    ensures AllNumeric(["6", "1", "2", "3"])
    ensures SmallValues("6", "1", "2", "3", ValueTable(["6", "1", "2", "3"]))
  {
    var ks := ["6", "1", "2", "3"];
    SmallKeysParse();
    assert ks[0] == "6" && ks[1] == "1" && ks[2] == "2" && ks[3] == "3";
  }

  lemma NumericKeysSorted(keys: seq<string>, ks: seq<string>)
    requires ShareKeys(keys) == ks && |ks| >= 2 && AllNumeric(ks)
    ensures NumericKeys(keys) == Ok(SortBy(ks, ValueTable(ks)))
  {
  }

  /** The keys 6, 1, 2 and 3 beside "keys" sort to 1, 2, 3, 6, and with `m` = 2 the roots come from 1 and 2. */
  lemma SelectionExample()
    ensures NumericKeys(["keys", "6", "1", "2", "3"]) == Ok(["1", "2", "3", "6"])
    ensures Selected(NumericKeys(["keys", "6", "1", "2", "3"]).value, 2) == ["1", "2"]
  {
    var ks := ["6", "1", "2", "3"];
    ShareKeysExample();
    ValueTableExample();
    SortExample("6", "1", "2", "3", ValueTable(ks));
    NumericKeysSorted(["keys", "6", "1", "2", "3"], ks);
    SelectedExample();
  }

  lemma SelectedExample()
    ensures Selected(["1", "2", "3", "6"], 2) == ["1", "2"]
  {
  }
}
