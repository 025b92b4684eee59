/** The final step of `huffmanCode`: `sorted(pairs, key=lambda p: (len(p[-1]), p))`.
    The key orders by codeword length, then by the pair itself, whose first
    component is the symbol. Symbols of one code are distinct, so comparing
    the codeword after the symbol never decides anything and the key below
    stops at the symbol. Python's library sort is modelled by an insertion
    sort: with distinct keys every correct sort gives the same list. */
module PairSort {
  import opened Codewords

  /** `p` sorts no later than `q` under the key `(len(code), sym)`: a
      shorter codeword always sorts first, a longer one never does. */
  predicate KeyLe(p: Pair, q: Pair)
    ensures |p.code| < |q.code| ==> KeyLe(p, q)
    ensures KeyLe(p, q) ==> |p.code| <= |q.code|
    ensures |p.code| == |q.code| ==> (KeyLe(p, q) <==> p.sym <= q.sym)
  {
    |p.code| < |q.code| || (|p.code| == |q.code| && p.sym <= q.sym)
  }

  predicate SortedByKey(s: seq<Pair>)
  {
    forall i, j :: 0 <= i < j < |s| ==> KeyLe(s[i], s[j])
  }

  /** Puts `p` in front of the first entry it sorts no later than. */
  function Insert(p: Pair, s: seq<Pair>): (r: seq<Pair>)
    requires SortedByKey(s)
    ensures multiset(r) == multiset{p} + multiset(s)
    ensures SortedByKey(r)
  {
    if s == [] then [p]
    else if KeyLe(p, s[0]) then
      assert SortedByKey([p] + s) by {
        forall i, j | 0 <= i < j < |s| + 1 ensures KeyLe(([p] + s)[i], ([p] + s)[j]) {
          if i == 0 && j > 1 { assert KeyLe(s[0], s[j - 1]); }
        }
      }
      [p] + s
    else
      var tail := Insert(p, s[1..]);
      InsertHeadFirst(p, s, tail);
      assert s == [s[0]] + s[1..];
      [s[0]] + tail
  }

  /** The step of `Insert` that keeps the head in front: `s[0]` sorts no
      later than anything in `tail`, which holds `p` and the rest of `s`. */
  lemma InsertHeadFirst(p: Pair, s: seq<Pair>, tail: seq<Pair>)
    requires s != [] && SortedByKey(s) && !KeyLe(p, s[0])
    requires SortedByKey(tail) && multiset(tail) == multiset{p} + multiset(s[1..])
    ensures SortedByKey([s[0]] + tail)
  {
    var r := [s[0]] + tail;
    forall j | 0 <= j < |tail| ensures KeyLe(s[0], tail[j]) {
      var q := tail[j];
      assert q in multiset(tail);
      if q != p {
        assert q in multiset(s[1..]);
        var k :| 0 <= k < |s| - 1 && s[1..][k] == q;
        assert s[k + 1] == q;
      }
    }
    forall i, j | 0 <= i < j < |r| ensures KeyLe(r[i], r[j]) {
      if i == 0 {
        assert r[j] == tail[j - 1];
      } else {
        assert r[i] == tail[i - 1] && r[j] == tail[j - 1];
      }
    }
  }

  /** `sorted(pairs, key=lambda p: (len(p[-1]), p))`. */
  function SortByCodeLength(s: seq<Pair>): (r: seq<Pair>)
    ensures multiset(r) == multiset(s)
    ensures SortedByKey(r)
  {
    if s == [] then [] else
      assert s == [s[0]] + s[1..];
      Insert(s[0], SortByCodeLength(s[1..]))
  }

  /** Sorting keeps the code a prefix code: the pairs are only reordered. */
  lemma {:induction false} SortKeepsPrefixCode(s: seq<Pair>)
    requires PrefixCode(s)
    ensures PrefixCode(SortByCodeLength(s))
  {
    if s != [] {
      var t := s[1..];
      PrefixCodeTail(s);
      SortKeepsPrefixCode(t);
      var sorted := SortByCodeLength(t);
      forall q | q in sorted ensures Compatible(s[0], q) {
        assert q in multiset(sorted);
        assert q in t;
        var k :| 0 <= k < |t| && t[k] == q;
        assert s[k + 1] == q;
      }
      InsertKeepsPrefixCode(s[0], sorted);
    }
  }

  lemma {:induction false} InsertKeepsPrefixCode(p: Pair, s: seq<Pair>)
    requires SortedByKey(s) && PrefixCode(s)
    requires forall q :: q in s ==> Compatible(p, q)
    ensures PrefixCode(Insert(p, s))
  {
    if s == [] {
    } else if KeyLe(p, s[0]) {
      PrefixCodeCons(p, s);
    } else {
      var t := s[1..];
      PrefixCodeTail(s);
      InsertKeepsPrefixCode(p, t);
      var tail := Insert(p, t);
      forall q | q in tail ensures Compatible(s[0], q) {
        assert q in multiset(tail);
        if q == p {
          CompatibleSymmetric(p, s[0]);
        } else {
          assert q in t;
          var k :| 0 <= k < |t| && t[k] == q;
          assert s[k + 1] == q;
        }
      }
      PrefixCodeCons(s[0], tail);
    }
  }

  /** The sorted list holds exactly the pairs it was given. */
  lemma SortSameElements(s: seq<Pair>)
    ensures forall p :: p in SortByCodeLength(s) <==> p in s
  {
    var r := SortByCodeLength(s);
    forall p ensures p in r <==> p in s {
      assert p in r <==> p in multiset(r);
      assert p in s <==> p in multiset(s);
    }
  }
}
