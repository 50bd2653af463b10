/**
 * A Python `dict` with string keys, as the process table uses it: the entries, and the keys
 * in the order they were first inserted (the order `list(d.items())` and
 * `list(d.keys())` walk them in).
 */
module OrderedDict {

  /** No element occurs twice: each element is new to the ones before it. */
  ghost predicate Distinct(s: seq<string>)
    decreases |s|
  {
    s == [] || (Distinct(s[..|s| - 1]) && s[|s| - 1] !in s[..|s| - 1])
  }

  /** Every prefix of a sequence without repeats is without repeats. */
  lemma {:induction false} DistinctPrefix(s: seq<string>, n: nat)
    requires Distinct(s) && n <= |s|
    ensures Distinct(s[..n])
    decreases |s|
  {
    if n < |s| {
      var init := s[..|s| - 1];
      assert init[..n] == s[..n];
      DistinctPrefix(init, n);
    } else {
      assert s[..n] == s;
    }
  }

  /** A new element appended to a sequence without repeats keeps it without repeats. */
  lemma DistinctSnoc(s: seq<string>, x: string)
    requires Distinct(s) && x !in s
    ensures Distinct(s + [x])
  {
    assert (s + [x])[..|s|] == s;
  }

  /** Distinctness is the usual pairwise statement. */
  lemma {:induction false} DistinctPairwise(s: seq<string>)
    ensures Distinct(s) <==> forall i, j :: 0 <= i < j < |s| ==> s[i] != s[j]
    decreases |s|
  {
    if s != [] {
      var init := s[..|s| - 1];
      DistinctPairwise(init);
      if Distinct(s) {
        forall i, j | 0 <= i < j < |s| ensures s[i] != s[j] {
          if j == |s| - 1 {
            assert s[i] == init[i];
          } else {
            assert s[i] == init[i] && s[j] == init[j];
          }
        }
      }
      if forall i, j :: 0 <= i < j < |s| ==> s[i] != s[j] {
        forall i, j | 0 <= i < j < |init| ensures init[i] != init[j] {
          assert init[i] == s[i] && init[j] == s[j];
        }
        forall i | 0 <= i < |init| ensures init[i] != s[|s| - 1] {
          assert init[i] == s[i];
        }
      }
    }
  }

  /** `s` with every occurrence of `x` taken out, the rest in order. */
  function Without(s: seq<string>, x: string): (r: seq<string>)
    ensures forall y :: y in r <==> y in s && y != x
    ensures Distinct(s) ==> Distinct(r)
    ensures x !in s ==> r == s
    decreases |s|
  {
    if s == [] then []
    else
      var r := Without(s[..|s| - 1], x);
      var last := s[|s| - 1];
      assert forall y :: y in s <==> y in s[..|s| - 1] || y == last;
      assert (r + [last])[..|r|] == r;
      if last == x then r else r + [last]
  }

  /** Taking out the only occurrence of `x` closes the gap: the elements before and after it keep their order. */
  lemma {:induction false} WithoutAt(s: seq<string>, x: string, i: nat)
    requires i < |s| && s[i] == x
    requires forall j :: 0 <= j < |s| && j != i ==> s[j] != x
    ensures Without(s, x) == s[..i] + s[i + 1..]
    decreases |s|
  {
    var init := s[..|s| - 1];
    var last := s[|s| - 1];
    if i == |s| - 1 {
      assert x !in init by {
        forall j | 0 <= j < |init| ensures init[j] != x {
          assert init[j] == s[j];
        }
      }
      assert Without(s, x) == Without(init, x) == init;
      assert s[..i] == init && s[i + 1..] == [];
    } else {
      assert last != x;
      assert Without(s, x) == Without(init, x) + [last];
      WithoutAt(init, x, i);
      assert init[..i] == s[..i];
      assert init[i + 1..] + [last] == s[i + 1..];
    }
  }

  /** Taking a name out from between `before` and `after`, where it is listed once, leaves `before` followed by `after`. */
  lemma WithoutBetween(before: seq<string>, x: string, after: seq<string>)
    requires Distinct(before + ([x] + after))
    ensures Without(before + ([x] + after), x) == before + after
  {
    var s := before + ([x] + after);
    var i := |before|;
    DistinctPairwise(s);
    assert s[i] == x;
    WithoutAt(s, x, i);
    assert s[..i] == before;
    assert s[i + 1..] == after;
  }

  datatype Dict<V> = Dict(keys: seq<string>, entries: map<string, V>) {

    /** Each key is listed once, and exactly the keys of the entries are listed. */
    ghost predicate Valid() {
      && Distinct(keys)
      && (forall k :: k in entries <==> k in keys)
    }

    /** `d[k] = v`: a new key goes to the end of the order, an existing key keeps its place. */
    function Put(k: string, v: V): (d: Dict<V>)
      requires Valid()
      ensures d.Valid()
      ensures d.entries == entries[k := v]
      ensures d.keys == if k in entries then keys else keys + [k]
    {
      assert (keys + [k])[..|keys|] == keys;
      if k in entries then Dict(keys, entries[k := v]) else Dict(keys + [k], entries[k := v])
    }

    /** `del d[k]` for a present key; nothing for an absent one. The other keys keep their order. */
    function Remove(k: string): (d: Dict<V>)
      requires Valid()
      ensures d.Valid()
      ensures d.entries == entries - {k}
      ensures d.keys == if k in entries then Without(keys, k) else keys
      ensures k !in entries ==> d == this
    {
      if k in entries then
        var d := Dict(Without(keys, k), entries - {k});
        assert forall y :: y in d.entries <==> y in d.keys;
        d
      else this
    }
  }

  /** `del d[k]` closes the gap where `k` was listed: the other keys keep their places in the order. */
  lemma RemoveKeepsOrder<V>(d: Dict<V>, k: string, i: nat)
    requires d.Valid() && i < |d.keys| && d.keys[i] == k
    ensures d.Remove(k).keys == d.keys[..i] + d.keys[i + 1..]
  {
    DistinctPairwise(d.keys);
    WithoutAt(d.keys, k, i);
  }

  /** `{}` */
  function Empty<V>(): (d: Dict<V>)
    ensures d.Valid() && d.entries == map[] && d.keys == []
  {
    Dict([], map[])
  }
}
