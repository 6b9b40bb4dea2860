/**
 The PHP values that reach the warehouse service and the ordered associative
 arrays (records) that carry them: `gettype`'s closed set of scalar kinds,
 PHP's string conversion used by `"{$value}"` interpolation, `intval`, and
 `array_merge` on string-keyed arrays.
 */
module PhpValues {
  import opened Wrappers
  import opened PhpStrings

  /** A scalar PHP value. A float carries the text PHP prints for it next to
      its numeric value: the decimal rendering of floats is taken as given. */
  datatype Value =
    | Bool(b: bool)
    | Int(i: int)
    | Double(d: real, text: string)
    | Str(s: string)
    | Null

  /** `gettype` is `boolean`, `integer` or `double`: the branch the service
      emits without quotes. */
  predicate IsNumeric(v: Value)
  {
    v.Bool? || v.Int? || v.Double?
  }

  /** PHP's string conversion, as used by `"{$value}"`: `true` is `1`, `false`
      and `null` are the empty string. */
  function ToPhpString(v: Value): string
  {
    match v
    case Bool(b) => if b then "1" else ""
    case Int(i) => IntToDecimal(i)
    case Double(_, text) => text
    case Str(s) => s
    case Null => ""
  }

  /** Conversion of a float to an integer, rounding toward zero. */
  function TruncateReal(d: real): (r: int)
    ensures d >= 0.0 ==> r as real <= d < r as real + 1.0
    ensures d < 0.0 ==> r as real - 1.0 < d <= r as real
  {
    if d >= 0.0 then d.Floor else -((-d).Floor)
  }

  /** PHP's `intval` on a boolean, integer or float. */
  function IntVal(v: Value): int
    requires IsNumeric(v)
  {
    match v
    case Bool(b) => if b then 1 else 0
    case Int(i) => i
    case Double(d, _) => TruncateReal(d)
  }

  // ---------------------------------------------------------------------------
  // Records: ordered string-keyed arrays
  // ---------------------------------------------------------------------------

  datatype Entry = Entry(key: string, value: Value)

  /** An associative array in iteration order. A PHP array never repeats a
      key, but the type does not enforce it: the builders do not depend on
      it, and the `array_merge` lemmas that do state `NoDuplicates(Keys(..))`
      as a precondition, which every record coming from PHP meets. */
  type Record = seq<Entry>

  /** `array_keys($r)`: one key per entry, in iteration order. */
  function Keys(r: Record): (ks: seq<string>)
    ensures |ks| == |r|
    ensures forall i :: 0 <= i < |r| ==> ks[i] == r[i].key
  {
    if |r| == 0 then [] else [r[0].key] + Keys(r[1..])
  }

  predicate NoDuplicates(ks: seq<string>)
  {
    |ks| == 0 || (ks[0] !in ks[1..] && NoDuplicates(ks[1..]))
  }

  /** `$r[$k]`, or None when the key is absent. */
  function Lookup(r: Record, k: string): Option<Value>
  {
    if |r| == 0 then None
    else if r[0].key == k then Some(r[0].value)
    else Lookup(r[1..], k)
  }

  /** `$a[$e->key] = $e->value`: overwrite in place when the key is present,
      append at the end otherwise. */
  function Put(a: Record, e: Entry): Record
  {
    if |a| == 0 then [e]
    else if a[0].key == e.key then [e] + a[1..]
    else [a[0]] + Put(a[1..], e)
  }

  /** `array_merge($a, $b)` for string keys: every entry of `b` is put into `a`
      in order. */
  function ArrayMerge(a: Record, b: Record): Record
    decreases |b|
  {
    if |b| == 0 then a else ArrayMerge(Put(a, b[0]), b[1..])
  }

  /** The keys of `bs`, in order, that do not occur in `ks`. */
  function Fresh(ks: seq<string>, bs: seq<string>): seq<string>
  {
    if |bs| == 0 then []
    else (if bs[0] in ks then [] else [bs[0]]) + Fresh(ks, bs[1..])
  }

  lemma {:induction false} LookupAbsent(r: Record, k: string)
    ensures Lookup(r, k).None? <==> k !in Keys(r)
  {
    if |r| > 0 {
      LookupAbsent(r[1..], k);
      assert Keys(r) == [r[0].key] + Keys(r[1..]);
    }
  }

  lemma {:induction false} PutLookup(a: Record, e: Entry, k: string)
    ensures Lookup(Put(a, e), k) == if k == e.key then Some(e.value) else Lookup(a, k)
  {
    if |a| > 0 && a[0].key != e.key {
      PutLookup(a[1..], e, k);
      assert Put(a, e)[1..] == Put(a[1..], e);
    } else if |a| > 0 {
      assert Put(a, e)[1..] == a[1..];
    }
  }

  lemma {:induction false} PutKeys(a: Record, e: Entry)
    ensures Keys(Put(a, e)) == if e.key in Keys(a) then Keys(a) else Keys(a) + [e.key]
  {
    if |a| > 0 {
      assert Keys(a) == [a[0].key] + Keys(a[1..]);
      if a[0].key != e.key {
        PutKeys(a[1..], e);
        assert Put(a, e) == [a[0]] + Put(a[1..], e);
        assert Keys(Put(a, e)) == [a[0].key] + Keys(Put(a[1..], e));
      } else {
        assert Keys(Put(a, e)) == [e.key] + Keys(a[1..]);
      }
    }
  }

  lemma {:induction false} NoDuplicatesSnoc(ks: seq<string>, x: string)
    requires NoDuplicates(ks) && x !in ks
    ensures NoDuplicates(ks + [x])
  {
    if |ks| > 0 {
      assert (ks + [x])[1..] == ks[1..] + [x];
      NoDuplicatesSnoc(ks[1..], x);
    }
  }

  lemma {:induction false} FreshIgnoresAbsent(ks: seq<string>, x: string, bs: seq<string>)
    requires x !in bs
    ensures Fresh(ks + [x], bs) == Fresh(ks, bs)
  {
    if |bs| > 0 {
      FreshIgnoresAbsent(ks, x, bs[1..]);
    }
  }

  /** After `array_merge($a, $b)`, a key holds `b`'s value when `b` has it and
      `a`'s value otherwise: later arrays win. */
  lemma {:induction false} MergeLookup(a: Record, b: Record, k: string)
    requires NoDuplicates(Keys(b))
    ensures Lookup(ArrayMerge(a, b), k) == if Lookup(b, k).Some? then Lookup(b, k) else Lookup(a, k)
    decreases |b|
  {
    if |b| > 0 {
      assert Keys(b) == [b[0].key] + Keys(b[1..]);
      MergeLookup(Put(a, b[0]), b[1..], k);
      PutLookup(a, b[0], k);
      if k == b[0].key {
        LookupAbsent(b[1..], k);
      }
    }
  }

  /** The merged array lists `a`'s keys first, in their own positions, followed
      by the keys only `b` has, in `b`'s order. */
  lemma {:induction false} MergeKeys(a: Record, b: Record)
    requires NoDuplicates(Keys(b))
    ensures Keys(ArrayMerge(a, b)) == Keys(a) + Fresh(Keys(a), Keys(b))
    decreases |b|
  {
    if |b| > 0 {
      var x := b[0].key;
      assert Keys(b) == [x] + Keys(b[1..]);
      assert Keys(b)[1..] == Keys(b[1..]);
      MergeKeys(Put(a, b[0]), b[1..]);
      PutKeys(a, b[0]);
      if x !in Keys(a) {
        FreshIgnoresAbsent(Keys(a), x, Keys(b[1..]));
      }
    }
  }

  /** Merging into an array without repeated keys keeps it free of repeated keys. */
  lemma {:induction false} MergeNoDuplicates(a: Record, b: Record)
    requires NoDuplicates(Keys(a))
    ensures NoDuplicates(Keys(ArrayMerge(a, b)))
    decreases |b|
  {
    if |b| > 0 {
      PutKeys(a, b[0]);
      if b[0].key !in Keys(a) {
        NoDuplicatesSnoc(Keys(a), b[0].key);
      }
      MergeNoDuplicates(Put(a, b[0]), b[1..]);
    }
  }
}
