/** The few pieces of Ruby's runtime the client relies on: `nil`-or-string
    values, string interpolation, and insertion-ordered hashes with `[]`,
    `[]=` and `merge!`. Hash keys are symbols; a symbol is modelled by its
    name, which is also what interpolation prints for it. */
module RubyHash {

  datatype Option<+T> = None | Some(value: T)

  /** A Ruby object as this model sees it: `nil` or a string. */
  type Value = Option<string>

  /** `"#{v}"`: a string prints as itself, `nil` as the empty string. */
  function Interpolate(v: Value): string
  {
    match v
    case None => ""
    case Some(s) => s
  }

  /** An insertion-ordered Ruby hash, as its sequence of entries. */
  type Hash = seq<(string, Value)>

  function Keys(h: Hash): set<string>
  {
    if |h| == 0 then {} else {h[0].0} + Keys(h[1..])
  }

  /** No key occurs twice: what every Ruby hash satisfies. */
  predicate UniqueKeys(h: Hash)
  {
    |h| == 0 || (h[0].0 !in Keys(h[1..]) && UniqueKeys(h[1..]))
  }

  /** The entry stored under `k`, if any (`h.has_key?(k)` and `h[k]` together). */
  function Find(h: Hash, k: string): (r: Option<Value>)
    ensures r.Some? <==> k in Keys(h)
  {
    if |h| == 0 then None
    else if h[0].0 == k then Some(h[0].1)
    else Find(h[1..], k)
  }

  /** `h[k] = v`: an existing key keeps its position and gets the new value,
      a new key is appended at the end. */
  function Store(h: Hash, k: string, v: Value): (r: Hash)
    ensures Find(r, k) == Some(v)
    ensures forall k' :: k' != k ==> Find(r, k') == Find(h, k')
    ensures Keys(r) == Keys(h) + {k}
    ensures UniqueKeys(h) ==> UniqueKeys(r)
    ensures k in Keys(h) ==> |r| == |h|
    ensures k !in Keys(h) ==> r == h + [(k, v)]
    ensures |h| <= |r| && forall i :: 0 <= i < |h| ==> r[i].0 == h[i].0
    ensures forall i :: 0 <= i < |h| && h[i].0 != k ==> r[i] == h[i]
  {
    if |h| == 0 then [(k, v)]
    else if h[0].0 == k then [(k, v)] + h[1..]
    else [h[0]] + Store(h[1..], k, v)
  }

  /** The entries of `other` whose key is not in `known`, in `other`'s order. */
  function Fresh(known: set<string>, other: Hash): (r: Hash)
    ensures |r| <= |other|
  {
    if |other| == 0 then []
    else if other[0].0 in known then Fresh(known, other[1..])
    else [other[0]] + Fresh(known, other[1..])
  }

  /** A key that `other` does not hold makes no difference to `Fresh`. */
  lemma {:induction false} FreshIgnoresAbsentKey(known: set<string>, k: string, other: Hash)
    requires k !in Keys(other)
    ensures Fresh(known + {k}, other) == Fresh(known, other)
    decreases |other|
  {
    if |other| > 0 {
      FreshIgnoresAbsentKey(known, k, other[1..]);
    }
  }

  /** `h.merge!(other)`: every entry of `other`, in order, stored into `h`.
      Keys of `h` stay where they are; the keys `h` lacked follow them, in
      the order `other` lists them. */
  function Merge(h: Hash, other: Hash): (r: Hash)
    requires UniqueKeys(other)
    ensures forall k :: Find(r, k) == (if k in Keys(other) then Find(other, k) else Find(h, k))
    ensures Keys(r) == Keys(h) + Keys(other)
    ensures UniqueKeys(h) ==> UniqueKeys(r)
    ensures |h| <= |r| && forall i :: 0 <= i < |h| ==> r[i].0 == h[i].0
    ensures forall i :: 0 <= i < |h| && h[i].0 !in Keys(other) ==> r[i] == h[i]
    ensures r[|h|..] == Fresh(Keys(h), other)
    decreases |other|
  {
    if |other| == 0 then h
    else
      var h' := Store(h, other[0].0, other[0].1);
      var r := Merge(h', other[1..]);
      MergeStepFind(h, other, r);
      MergeStepEntries(h, other, r);
      assert other[0].0 !in Keys(h) ==> r[|h|] == other[0] by {
        if other[0].0 !in Keys(h) {
          assert h'[|h|] == other[0] && other[0].0 !in Keys(other[1..]);
        }
      }
      MergeStepFresh(h, other, |h'|, Keys(h'), r);
      r
  }

  /** One step of `Merge`, the lookups: storing the first entry, then merging
      the rest, finds what merging all of `other` should find. */
  lemma MergeStepFind(h: Hash, other: Hash, r: Hash)
    requires |other| > 0 && UniqueKeys(other)
    requires forall k :: Find(r, k) == (if k in Keys(other[1..]) then Find(other[1..], k)
                                         else Find(Store(h, other[0].0, other[0].1), k))
    ensures forall k :: Find(r, k) == (if k in Keys(other) then Find(other, k) else Find(h, k))
  {
    assert Keys(other) == {other[0].0} + Keys(other[1..]);
  }

  /** One step of `Merge`, the entries already in `h`. */
  lemma MergeStepEntries(h: Hash, other: Hash, r: Hash)
    requires |other| > 0 && UniqueKeys(other)
    requires var h' := Store(h, other[0].0, other[0].1);
      && |h'| <= |r| && (forall i :: 0 <= i < |h'| ==> r[i].0 == h'[i].0)
      && (forall i :: 0 <= i < |h'| && h'[i].0 !in Keys(other[1..]) ==> r[i] == h'[i])
    ensures |h| <= |r| && forall i :: 0 <= i < |h| ==> r[i].0 == h[i].0
    ensures forall i :: 0 <= i < |h| && h[i].0 !in Keys(other) ==> r[i] == h[i]
  {
    assert Keys(other) == {other[0].0} + Keys(other[1..]);
  }

  /** One step of `Merge`, the appended tail. After storing the first entry
      of `other` into `h`, the hash has `n` entries and the keys `known`, and
      merging the rest left `r` with its fresh entries from position `n`. */
  lemma MergeStepFresh(h: Hash, other: Hash, n: nat, known: set<string>, r: Hash)
    requires |other| > 0 && UniqueKeys(other)
    requires known == Keys(h) + {other[0].0}
    requires n == if other[0].0 in Keys(h) then |h| else |h| + 1
    requires n <= |r|
    requires other[0].0 !in Keys(h) ==> r[|h|] == other[0]
    requires r[n..] == Fresh(known, other[1..])
    ensures |h| <= |r| && r[|h|..] == Fresh(Keys(h), other)
  {
    if other[0].0 in Keys(h) {
      KnownTail(h, other, r, n, known);
    } else {
      AppendedTail(h, other, r);
    }
  }

  /** The tail when the first key of `other` is already in `h`. */
  lemma KnownTail(h: Hash, other: Hash, r: Hash, n: nat, known: set<string>)
    requires |other| > 0 && other[0].0 in Keys(h)
    requires n == |h| && known == Keys(h)
    requires n <= |r| && r[n..] == Fresh(known, other[1..])
    ensures r[|h|..] == Fresh(Keys(h), other)
  {
  }

  /** The tail when the first key of `other` is new to `h`. */
  lemma AppendedTail(h: Hash, other: Hash, r: Hash)
    requires |other| > 0 && other[0].0 !in Keys(h) && other[0].0 !in Keys(other[1..])
    requires |h| < |r| && r[|h|] == other[0]
    requires r[|h| + 1..] == Fresh(Keys(h) + {other[0].0}, other[1..])
    ensures r[|h|..] == Fresh(Keys(h), other)
  {
    FreshIgnoresAbsentKey(Keys(h), other[0].0, other[1..]);
    assert r[|h|..] == [r[|h|]] + r[|h| + 1..];
  }

  /** Every entry is fresh when no key is known. */
  lemma {:induction false} FreshAllNew(known: set<string>, other: Hash)
    requires known !! Keys(other)
    ensures Fresh(known, other) == other
    decreases |other|
  {
    if |other| > 0 {
      assert Keys(other) == {other[0].0} + Keys(other[1..]);
      FreshAllNew(known, other[1..]);
    }
  }

  /** Merging a hash that shares no key with `h` appends its entries in order. */
  lemma MergeFresh(h: Hash, other: Hash)
    requires UniqueKeys(other)
    requires Keys(h) !! Keys(other)
    ensures Merge(h, other) == h + other
  {
    var r := Merge(h, other);
    FreshAllNew(Keys(h), other);
    forall i | 0 <= i < |h|
      ensures r[i] == h[i]
    {
      KeyOfEntry(h, i);
    }
    assert r[..|h|] == h;
    assert r == r[..|h|] + r[|h|..];
  }

  lemma {:induction false} KeyOfEntry(h: Hash, i: nat)
    requires i < |h|
    ensures h[i].0 in Keys(h)
    decreases i
  {
    if i > 0 {
      KeyOfEntry(h[1..], i - 1);
    }
  }

  /** In a hash with unique keys, every entry is what `[]` finds under its key. */
  lemma {:induction false} FindEntry(h: Hash, i: nat)
    requires UniqueKeys(h)
    requires i < |h|
    ensures Find(h, h[i].0) == Some(h[i].1)
    decreases i
  {
    if i > 0 {
      FindEntry(h[1..], i - 1);
      assert h[1..][i - 1] == h[i];
      assert h[i].0 in Keys(h[1..]);
    }
  }

  /** `{a: nil}.merge!(b: nil, a: v, c: nil)` for distinct keys: `a` keeps
      its place with the new value, and `b`, `c` follow in the order they
      were given. */
  lemma MergeOrderExample(a: string, b: string, c: string, v: string)
    requires a != b && b != c && a != c
    ensures UniqueKeys([(b, None), (a, Some(v)), (c, None)])
    ensures Merge([(a, None)], [(b, None), (a, Some(v)), (c, None)])
         == [(a, Some(v)), (b, None), (c, None)]
  {
    var h: Hash := [(a, None)];
    var other: Hash := [(b, None), (a, Some(v)), (c, None)];
    var o1, o2 := other[1..], other[2..];
    assert o1 == [other[1], other[2]] && o1[1..] == o2 && o2 == [(c, None)] && o2[1..] == [];
    assert Keys(o2) == {c} && UniqueKeys(o2);
    assert Keys(o1) == {a, c} && UniqueKeys(o1);
    assert UniqueKeys(other);
    var h1 := Store(h, b, None);
    assert h1 == [(a, None), (b, None)];
    var h2 := Store(h1, a, Some(v));
    assert h2 == [(a, Some(v)), (b, None)];
    var h3 := Store(h2, c, None);
    assert h3 == [(a, Some(v)), (b, None), (c, None)];
    assert Merge(h3, []) == h3;
    assert Merge(h2, o2) == Merge(h3, []);
    assert Merge(h1, o1) == Merge(h2, o2);
    assert Merge(h, other) == Merge(h1, o1);
  }
}
