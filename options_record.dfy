/** The plugin's options record: a PHP array with string keys, kept in
    insertion order because `array_shift` drops whichever field comes first. */
module OptionsRecord {
  import opened PhpValues

  datatype Entry = Entry(key: string, value: Value)

  type Record = seq<Entry>

  function Keys(r: Record): (ks: seq<string>)
    ensures |ks| == |r|
    ensures forall i :: 0 <= i < |r| ==> ks[i] == r[i].key
  {
    if r == [] then [] else [r[0].key] + Keys(r[1..])
  }

  predicate Distinct(s: seq<string>) {
    forall i, j :: 0 <= i < j < |s| ==> s[i] != s[j]
  }

  /** `$options[$tag]`: the value stored under `k`, and null when `k` is not
      a key. */
  function Lookup(r: Record, k: string): (v: Value) {
    if r == [] then Null
    else if r[0].key == k then r[0].value
    else Lookup(r[1..], k)
  }

  /** `$options[$k] = $v`: overwrites the value of an existing key in its
      place, or appends a new entry at the end. */
  function Put(r: Record, k: string, v: Value): (written: Record) {
    if r == [] then [Entry(k, v)]
    else if r[0].key == k then [Entry(k, v)] + r[1..]
    else [r[0]] + Put(r[1..], k, v)
  }

  /** What `array_shift` leaves behind: the record without its first field. */
  function Shift(r: Record): (rest: Record) {
    if r == [] then [] else r[1..]
  }

  /** PHP's loose array comparison `$a == $b`: the same number of entries, and
      every key of `a` present in `b` with a loosely equal value. The order of
      the entries does not matter. */
  predicate LooseSameArray(a: Record, b: Record) {
    |a| == |b| &&
    forall i :: 0 <= i < |a| ==> a[i].key in Keys(b) && LooseEquals(a[i].value, Lookup(b, a[i].key))
  }

  /** In a record with distinct keys, looking up the key of an entry finds
      that entry's value. */
  lemma {:induction false} LookupAt(r: Record, i: nat)
    requires Distinct(Keys(r)) && i < |r|
    ensures Lookup(r, r[i].key) == r[i].value
  {
    if i > 0 {
      assert Keys(r)[0] != Keys(r)[i];
      assert Keys(r[1..]) == Keys(r)[1..];
      LookupAt(r[1..], i - 1);
    }
  }

  /** Writing a key changes what that key reads and nothing else. */
  lemma {:induction false} PutLookup(r: Record, k: string, v: Value, k': string)
    ensures Lookup(Put(r, k, v), k') == if k' == k then v else Lookup(r, k')
  {
    if r != [] && r[0].key != k {
      PutLookup(r[1..], k, v, k');
    }
  }

  /** Writing an existing key keeps the key order; writing a new key appends
      it. */
  lemma {:induction false} PutKeys(r: Record, k: string, v: Value)
    ensures Keys(Put(r, k, v)) == if k in Keys(r) then Keys(r) else Keys(r) + [k]
  {
    if r != [] {
      assert Keys(r) == [r[0].key] + Keys(r[1..]);
      if r[0].key != k {
        PutKeys(r[1..], k, v);
        assert Keys(Put(r, k, v)) == [r[0].key] + Keys(Put(r[1..], k, v));
      } else {
        assert Keys(Put(r, k, v)) == [k] + Keys(r[1..]);
      }
    }
  }

  lemma PutDistinct(r: Record, k: string, v: Value)
    requires Distinct(Keys(r))
    ensures Distinct(Keys(Put(r, k, v)))
  {
    PutKeys(r, k, v);
  }

  /** Writing back the value a key already holds leaves the record as it was
      (the case in which `update_option` reports no change). */
  lemma {:induction false} PutSame(r: Record, k: string)
    requires k in Keys(r)
    ensures Put(r, k, Lookup(r, k)) == r
  {
    assert Keys(r) == [r[0].key] + Keys(r[1..]);
    if r[0].key != k {
      PutSame(r[1..], k);
      assert Put(r, k, Lookup(r, k)) == [r[0]] + r[1..];
    } else {
      assert Put(r, k, Lookup(r, k)) == [Entry(k, r[0].value)] + r[1..];
    }
    assert [r[0]] + r[1..] == r;
  }

  /** A second write to the same key overrides the first. */
  lemma {:induction false} PutPut(r: Record, k: string, a: Value, b: Value)
    ensures Put(Put(r, k, a), k, b) == Put(r, k, b)
  {
    if r != [] && r[0].key != k {
      PutPut(r[1..], k, a, b);
    }
  }
}
