/** A plain JavaScript object as `createRowObject` builds it: string keys
    in insertion order, each holding either a string or `undefined`. */
module JsObject {

  /** What `values[index]` yields for an array of strings. */
  datatype JsValue = Undefined | Str(s: string)

  /** An object literal: `keys` lists the own properties in the order they
      were first assigned, `props` holds their current values. */
  datatype Record = Record(keys: seq<string>, props: map<string, JsValue>) {

    /** The keys are distinct and are exactly the properties present. */
    ghost predicate Valid() {
      (forall i, j :: 0 <= i < j < |keys| ==> keys[i] != keys[j])
      && (forall k :: k in props <==> k in keys)
    }

    /** `obj[k] = v`: a new key is appended to the key order, an existing
        key keeps its place and takes the new value. */
    function Set(k: string, v: JsValue): Record {
      Record(if k in props then keys else keys + [k], props[k := v])
    }
  }

  /** `{}` */
  const Empty := Record([], map[])

  /** Assignment keeps the key list and the property map in step: only `k`
      can be added, at the end of the key order, and only `k` changes. */
  lemma SetValid(r: Record, k: string, v: JsValue)
    requires r.Valid()
    ensures r.Set(k, v).Valid()
    ensures r.Set(k, v).keys == (if k in r.props then r.keys else r.keys + [k])
    ensures forall x :: x in r.Set(k, v).props <==> x in r.props || x == k
    ensures r.Set(k, v).props[k] == v
    ensures forall x :: x in r.props && x != k ==> x in r.Set(k, v).props && r.Set(k, v).props[x] == r.props[x]
  {
  }

  /** Index of the first occurrence of `x` in `xs`. */
  function FirstIndex(xs: seq<string>, x: string): (r: nat)
    requires x in xs
    ensures r < |xs| && xs[r] == x
    ensures forall j :: 0 <= j < r ==> xs[j] != x
  {
    if xs[0] == x then 0 else 1 + FirstIndex(xs[1..], x)
  }

  /** Index of the last occurrence of `x` in `xs`. */
  function LastIndex(xs: seq<string>, x: string): (r: nat)
    requires x in xs
    ensures r < |xs| && xs[r] == x
    ensures forall j :: r < j < |xs| ==> xs[j] != x
  {
    var n := |xs|;
    if xs[n - 1] == x then n - 1
    else
      assert x in xs[..n - 1] by {
        var i :| 0 <= i < n && xs[i] == x;
        assert xs[..n - 1][i] == x;
      }
      LastIndex(xs[..n - 1], x)
  }

  /** The distinct elements of `xs`, each kept at its first occurrence
      (see DedupSpec and DedupFirstOccurrenceOrder). */
  function Dedup(xs: seq<string>): (r: seq<string>)
    ensures |r| <= |xs|
    ensures forall i :: 0 <= i < |r| ==> r[i] in xs
  {
    if xs == [] then []
    else
      var n := |xs|;
      var prefix := Dedup(xs[..n - 1]);
      assert forall x :: x in xs[..n - 1] ==> x in xs;
      if xs[n - 1] in xs[..n - 1] then prefix else prefix + [xs[n - 1]]
  }

  /** Dedup keeps every element of `xs`, adds none, and repeats none. */
  lemma {:induction false} DedupSpec(xs: seq<string>)
    ensures forall x :: x in Dedup(xs) <==> x in xs
    ensures forall i, j :: 0 <= i < j < |Dedup(xs)| ==> Dedup(xs)[i] != Dedup(xs)[j]
  {
    if xs != [] {
      var n := |xs|;
      DedupSpec(xs[..n - 1]);
      assert xs == xs[..n - 1] + [xs[n - 1]];
    }
  }

  lemma FirstIndexPrefix(xs: seq<string>, m: nat, x: string)
    requires m <= |xs| && x in xs[..m]
    ensures x in xs && FirstIndex(xs, x) == FirstIndex(xs[..m], x)
  {
  }

  lemma FirstIndexOfNew(xs: seq<string>)
    requires xs != [] && xs[|xs| - 1] !in xs[..|xs| - 1]
    ensures FirstIndex(xs, xs[|xs| - 1]) == |xs| - 1
  {
  }

  /** Dedup lists the distinct elements in the order of their first
      occurrence. */
  lemma {:induction false} DedupFirstOccurrenceOrder(xs: seq<string>)
    ensures forall i, j :: 0 <= i < j < |Dedup(xs)| ==>
      FirstIndex(xs, Dedup(xs)[i]) < FirstIndex(xs, Dedup(xs)[j])
  {
    if xs != [] {
      var n := |xs|;
      var p := xs[..n - 1];
      var r, rp := Dedup(xs), Dedup(p);
      DedupFirstOccurrenceOrder(p);
      DedupSpec(p);
      if xs[n - 1] in p {
        assert r == rp;
        forall i, j | 0 <= i < j < |r|
          ensures FirstIndex(xs, r[i]) < FirstIndex(xs, r[j])
        {
          FirstIndexPrefix(xs, n - 1, rp[i]);
          FirstIndexPrefix(xs, n - 1, rp[j]);
        }
      } else {
        assert r == rp + [xs[n - 1]];
        FirstIndexOfNew(xs);
        forall i, j | 0 <= i < j < |r|
          ensures FirstIndex(xs, r[i]) < FirstIndex(xs, r[j])
        {
          assert r[i] == rp[i];
          FirstIndexPrefix(xs, n - 1, rp[i]);
          if j < |rp| {
            assert r[j] == rp[j];
            FirstIndexPrefix(xs, n - 1, rp[j]);
          }
        }
      }
    }
  }

  /** Without repeats there is nothing to drop. */
  lemma {:induction false} DedupDistinct(xs: seq<string>)
    requires forall i, j :: 0 <= i < j < |xs| ==> xs[i] != xs[j]
    ensures Dedup(xs) == xs
  {
    if xs != [] {
      var n := |xs|;
      DedupDistinct(xs[..n - 1]);
      assert xs[n - 1] !in xs[..n - 1];
      assert xs[..n - 1] + [xs[n - 1]] == xs;
    }
  }
}
