/** The forest that `huffmanCode` keeps in its heap, described on the SET of
    entries it holds: which entry `heappop` returns, what one iteration of the
    `while` loop turns the forest into, and the single entry left at the end.
    The heap's array layout is not described: with pairwise distinct symbols
    the order used by `heappop` is total on the entries, so the set decides
    every pop. */
module Forest {
  import opened Codewords
  import opened Totals

  /** One heap entry `[weight, [c1, code1], [c2, code2], ...]`. */
  datatype Entry = Entry(weight: int, pairs: seq<Pair>)

  /** The seed entry `[freq, [aChar, ""]]` of one dictionary item. */
  function Leaf(c: char, w: int): Entry
  {
    Entry(w, [Pair(c, "")])
  }

  /** An entry as the loop keeps it: at least one pair, distinct symbols,
      prefix-free binary codewords, and non-empty codewords once merged. */
  predicate EntryOk(e: Entry)
  {
    && |e.pairs| > 0
    && PrefixCode(e.pairs)
    && BinaryCodes(e.pairs)
    && (|e.pairs| > 1 ==> NonEmptyCodes(e.pairs))
  }

  function First(e: Entry): char
    requires |e.pairs| > 0
  {
    e.pairs[0].sym
  }

  /** Python's comparison of two heap entries: by weight, then by the first
      `[symbol, codeword]` pair, which is decided by the symbol because no
      symbol occurs in two entries. A lighter entry always comes first. */
  predicate Precedes(a: Entry, b: Entry)
    requires |a.pairs| > 0 && |b.pairs| > 0
    ensures Precedes(a, b) ==> a.weight <= b.weight
    ensures a.weight < b.weight ==> Precedes(a, b)
  {
    a.weight < b.weight || (a.weight == b.weight && First(a) < First(b))
  }

  /** `Precedes` is a strict order, total on entries whose first symbols
      differ, so `heappop` never has to compare codewords. */
  lemma PrecedesOrder(a: Entry, b: Entry, c: Entry)
    requires |a.pairs| > 0 && |b.pairs| > 0 && |c.pairs| > 0
    ensures !Precedes(a, a)
    ensures Precedes(a, b) ==> !Precedes(b, a)
    ensures Precedes(a, b) && Precedes(b, c) ==> Precedes(a, c)
    ensures First(a) != First(b) ==> Precedes(a, b) || Precedes(b, a)
  {
  }

  /** A forest: good entries whose symbol sets are pairwise disjoint. */
  predicate WellFormed(S: set<Entry>)
  {
    && (forall e :: e in S ==> EntryOk(e))
    && (forall a, b :: a in S && b in S && a != b ==> Syms(a.pairs) !! Syms(b.pairs))
  }

  /** Every symbol of every entry of the forest. */
  ghost function AllSyms(S: set<Entry>): set<char>
  {
    set e, c | e in S && c in Syms(e.pairs) :: c
  }

  /** The total weight of the forest. */
  ghost function Weight(S: set<Entry>): int
  {
    if S == {} then 0 else var e :| e in S; e.weight + Weight(S - {e})
  }

  lemma {:induction false} WeightRemove(S: set<Entry>, y: Entry)
    requires y in S
    ensures Weight(S) == y.weight + Weight(S - {y})
  {
    var e :| e in S && Weight(S) == e.weight + Weight(S - {e});
    if e != y {
      WeightRemove(S - {e}, y);
      WeightRemove(S - {y}, e);
      assert S - {e} - {y} == S - {y} - {e};
    }
  }

  lemma FirstInSyms(e: Entry)
    requires |e.pairs| > 0
    ensures First(e) in Syms(e.pairs)
  {
    assert e.pairs[0] in e.pairs;
  }

  lemma DistinctFirst(S: set<Entry>, a: Entry, b: Entry)
    requires WellFormed(S) && a in S && b in S && a != b
    ensures First(a) != First(b)
  {
    FirstInSyms(a);
    FirstInSyms(b);
  }

  lemma WellFormedSubset(S: set<Entry>, T: set<Entry>)
    requires WellFormed(S) && T <= S
    ensures WellFormed(T)
  {
  }

  lemma RemoveCard(S: set<Entry>, x: Entry)
    requires x in S
    ensures |S - {x}| == |S| - 1
  {
    assert S == (S - {x}) + {x};
  }

  /** The entry `heappop` returns: the least one in `Precedes` order. */
  ghost function MinOf(S: set<Entry>): (m: Entry)
    requires WellFormed(S) && S != {}
    ensures m in S
    ensures forall e :: e in S && e != m ==> Precedes(m, e)
    decreases S
  {
    var x :| x in S;
    if S - {x} == {} then
      assert forall e :: e in S ==> e in S - {x} || e == x;
      x
    else
      WellFormedSubset(S, S - {x});
      var m := MinOf(S - {x});
      DistinctFirst(S, x, m);
      assert forall e :: e in S && e != x ==> e in S - {x};
      if Precedes(x, m) then x else m
  }

  /** An entry that precedes all others is the one `heappop` returns. */
  lemma MinOfUnique(S: set<Entry>, m: Entry)
    requires WellFormed(S) && m in S
    requires forall e :: e in S && e != m ==> Precedes(m, e)
    ensures MinOf(S) == m
  {
  }

  /** The codewords of a group after `pair[1] = bit + pair[1]` on each pair. */
  function Prefixed(bit: char, s: seq<Pair>): seq<Pair>
  {
    seq(|s|, i requires 0 <= i < |s| => Pair(s[i].sym, [bit] + s[i].code))
  }

  /** The entry pushed back: `[lo[0] + hi[0]] + lo[1:] + hi[1:]` after the
      codewords of `lo` got a leading '0' and those of `hi` a leading '1'. */
  function Merge(lo: Entry, hi: Entry): (r: Entry)
    ensures r.weight == lo.weight + hi.weight
    ensures |r.pairs| == |lo.pairs| + |hi.pairs|
    ensures forall i :: 0 <= i < |lo.pairs| ==>
      r.pairs[i] == Pair(lo.pairs[i].sym, "0" + lo.pairs[i].code)
    ensures forall i :: 0 <= i < |hi.pairs| ==>
      r.pairs[|lo.pairs| + i] == Pair(hi.pairs[i].sym, "1" + hi.pairs[i].code)
  {
    Entry(lo.weight + hi.weight, Prefixed('0', lo.pairs) + Prefixed('1', hi.pairs))
  }

  lemma SymsPrefixed(bit: char, s: seq<Pair>)
    ensures Syms(Prefixed(bit, s)) == Syms(s)
  {
    var t := Prefixed(bit, s);
    forall c | c in Syms(t) ensures c in Syms(s) {
      var p :| p in t && p.sym == c;
      var i :| 0 <= i < |t| && t[i] == p;
      assert s[i] in s;
    }
    forall c | c in Syms(s) ensures c in Syms(t) {
      var p :| p in s && p.sym == c;
      var i :| 0 <= i < |s| && s[i] == p;
      assert t[i] in t;
    }
  }

  lemma ConsPrefix(bit: char, a: string, b: string)
    ensures ([bit] + a <= [bit] + b) <==> (a <= b)
  {
    if [bit] + a <= [bit] + b {
      assert a == ([bit] + a)[1..] == ([bit] + b)[1..|a| + 1] == b[..|a|];
    }
  }

  /** Prepending the same bit to every codeword keeps a prefix code. */
  lemma PrefixedPrefixCode(bit: char, s: seq<Pair>)
    requires PrefixCode(s)
    ensures PrefixCode(Prefixed(bit, s))
  {
    var t := Prefixed(bit, s);
    forall i, j | 0 <= i < j < |t| ensures Compatible(t[i], t[j]) {
      assert Compatible(s[i], s[j]);
      ConsPrefix(bit, s[i].code, s[j].code);
      ConsPrefix(bit, s[j].code, s[i].code);
    }
  }

  lemma PrefixCodeAppend(a: seq<Pair>, b: seq<Pair>)
    requires PrefixCode(a) && PrefixCode(b)
    requires forall i, j :: 0 <= i < |a| && 0 <= j < |b| ==> Compatible(a[i], b[j])
    ensures PrefixCode(a + b)
  {
    var r := a + b;
    forall i, j | 0 <= i < j < |r| ensures Compatible(r[i], r[j]) {
      if j < |a| {
        assert r[i] == a[i] && r[j] == a[j];
      } else if i < |a| {
        assert r[i] == a[i] && r[j] == b[j - |a|];
      } else {
        assert r[i] == b[i - |a|] && r[j] == b[j - |a|];
      }
    }
  }

  /** A merged entry is good and holds exactly the symbols of its parts. */
  lemma MergeOk(lo: Entry, hi: Entry)
    requires EntryOk(lo) && EntryOk(hi) && Syms(lo.pairs) !! Syms(hi.pairs)
    ensures EntryOk(Merge(lo, hi))
    ensures Syms(Merge(lo, hi).pairs) == Syms(lo.pairs) + Syms(hi.pairs)
    ensures |Merge(lo, hi).pairs| == |lo.pairs| + |hi.pairs|
  {
    var a, b := Prefixed('0', lo.pairs), Prefixed('1', hi.pairs);
    PrefixedPrefixCode('0', lo.pairs);
    PrefixedPrefixCode('1', hi.pairs);
    SymsPrefixed('0', lo.pairs);
    SymsPrefixed('1', hi.pairs);
    forall i, j | 0 <= i < |a| && 0 <= j < |b| ensures Compatible(a[i], b[j]) {
      assert lo.pairs[i] in lo.pairs && hi.pairs[j] in hi.pairs;
      assert a[i].sym in Syms(lo.pairs) && b[j].sym in Syms(hi.pairs);
      assert a[i].code[0] == '0' && b[j].code[0] == '1';
    }
    PrefixCodeAppend(a, b);
    SymsAppend(a, b);
    var m := a + b;
    forall p | p in m ensures IsBinary(p.code) && p.code != [] {
      var k :| 0 <= k < |m| && m[k] == p;
      if k < |a| {
        assert lo.pairs[k] in lo.pairs;
      } else {
        assert hi.pairs[k - |a|] in hi.pairs;
      }
    }
  }

  /** The first entry popped in an iteration. */
  ghost function Lo(S: set<Entry>): Entry
    requires WellFormed(S) && |S| >= 2
  {
    MinOf(S)
  }

  /** The second entry popped in an iteration: the least of the rest. */
  ghost function Hi(S: set<Entry>): (hi: Entry)
    requires WellFormed(S) && |S| >= 2
    ensures hi in S && hi != Lo(S)
  {
    RemoveCard(S, Lo(S));
    WellFormedSubset(S, S - {Lo(S)});
    MinOf(S - {Lo(S)})
  }

  /** One iteration of the `while` loop: pop `lo`, pop `hi`, push their
      merge. Every other entry stays as it was. */
  ghost function Step(S: set<Entry>): (r: set<Entry>)
    requires WellFormed(S) && |S| >= 2
    ensures Merge(Lo(S), Hi(S)) in r
    ensures forall e :: e in S && e != Lo(S) && e != Hi(S) ==> e in r
    ensures forall e :: e in r && e != Merge(Lo(S), Hi(S)) ==> e in S && e != Lo(S) && e != Hi(S)
  {
    S - {Lo(S), Hi(S)} + {Merge(Lo(S), Hi(S))}
  }

  /** What an iteration keeps: a forest with one entry fewer, the same
      symbols and the same total weight. */
  lemma StepFacts(S: set<Entry>)
    requires WellFormed(S) && |S| >= 2
    ensures WellFormed(Step(S))
    ensures |Step(S)| == |S| - 1
    ensures AllSyms(Step(S)) == AllSyms(S)
    ensures Weight(Step(S)) == Weight(S)
    ensures |S| == 2 ==> Step(S) == {Merge(Lo(S), Hi(S))}
  {
    var lo, hi := Lo(S), Hi(S);
    MergeCard(S, lo, hi);
    MergeWellFormed(S, lo, hi);
    MergeSyms(S, lo, hi);
    MergeWeight(S, lo, hi);
  }

  /** `lo` and `hi` are the two least entries, `lo` first. */
  lemma StepOrder(S: set<Entry>)
    requires WellFormed(S) && |S| >= 2
    ensures Precedes(Lo(S), Hi(S))
    ensures forall e :: e in S && e != Lo(S) && e != Hi(S) ==> Precedes(Lo(S), e) && Precedes(Hi(S), e)
  {
    var lo := Lo(S);
    RemoveCard(S, lo);
    WellFormedSubset(S, S - {lo});
    forall e | e in S && e != lo && e != Hi(S) ensures Precedes(Hi(S), e) {
      assert e in S - {lo};
    }
  }

  /** The merged entry is not one of the entries left in the heap. */
  lemma MergeIsNew(S: set<Entry>, lo: Entry, hi: Entry)
    requires WellFormed(S) && lo in S && hi in S && lo != hi
    ensures Merge(lo, hi) !in S - {lo, hi}
  {
    MergeOk(lo, hi);
    FirstInSyms(lo);
  }

  lemma MergeCard(S: set<Entry>, lo: Entry, hi: Entry)
    requires WellFormed(S) && lo in S && hi in S && lo != hi
    ensures |S - {lo, hi} + {Merge(lo, hi)}| == |S| - 1
    ensures |S| == 2 ==> S - {lo, hi} + {Merge(lo, hi)} == {Merge(lo, hi)}
  {
    var rest := S - {lo, hi};
    MergeIsNew(S, lo, hi);
    RemoveCard(S, lo);
    RemoveCard(S - {lo}, hi);
    assert rest == S - {lo} - {hi};
    assert |rest + {Merge(lo, hi)}| == |rest| + 1;
    if |S| == 2 {
      assert |rest| == 0;
    }
  }

  lemma MergeWellFormed(S: set<Entry>, lo: Entry, hi: Entry)
    requires WellFormed(S) && lo in S && hi in S && lo != hi
    ensures WellFormed(S - {lo, hi} + {Merge(lo, hi)})
  {
    MergeOk(lo, hi);
    var T := S - {lo, hi} + {Merge(lo, hi)};
    forall a, b | a in T && b in T && a != b ensures Syms(a.pairs) !! Syms(b.pairs) {
      if a != Merge(lo, hi) && b != Merge(lo, hi) {
        assert a in S && b in S;
      } else if a == Merge(lo, hi) {
        assert b in S && b != lo && b != hi;
      } else {
        assert a in S && a != lo && a != hi;
      }
    }
  }

  lemma MergeSyms(S: set<Entry>, lo: Entry, hi: Entry)
    requires WellFormed(S) && lo in S && hi in S && lo != hi
    ensures AllSyms(S - {lo, hi} + {Merge(lo, hi)}) == AllSyms(S)
  {
    MergeOk(lo, hi);
    var m := Merge(lo, hi);
    var T := S - {lo, hi} + {m};
    forall c | c in AllSyms(S) ensures c in AllSyms(T) {
      var e :| e in S && c in Syms(e.pairs);
      if e == lo || e == hi {
        assert m in T && c in Syms(m.pairs);
      } else {
        assert e in T;
      }
    }
    forall c | c in AllSyms(T) ensures c in AllSyms(S) {
      var e :| e in T && c in Syms(e.pairs);
      if e == m {
        if c in Syms(lo.pairs) { assert lo in S; } else { assert hi in S; }
      } else {
        assert e in S;
      }
    }
  }

  lemma MergeWeight(S: set<Entry>, lo: Entry, hi: Entry)
    requires WellFormed(S) && lo in S && hi in S && lo != hi
    ensures Weight(S - {lo, hi} + {Merge(lo, hi)}) == Weight(S)
  {
    var rest, m := S - {lo, hi}, Merge(lo, hi);
    MergeIsNew(S, lo, hi);
    WeightRemove(S, lo);
    WeightRemove(S - {lo}, hi);
    assert S - {lo} - {hi} == rest;
    WeightRemove(rest + {m}, m);
    assert rest + {m} - {m} == rest;
  }

  /** The single entry left when the loop stops: a good entry, and the
      only one when the heap held a single entry. */
  ghost function Build(S: set<Entry>): (r: Entry)
    requires WellFormed(S) && S != {}
    ensures EntryOk(r)
    ensures |S| == 1 ==> r in S
    decreases |S|
  {
    if |S| == 1 then var e :| e in S; e
    else
      StepFacts(S);
      Build(Step(S))
  }

  /** The final entry is good, holds every symbol of the forest, weighs what
      the whole forest weighed, and, when at least one merge happened, gives
      every symbol a non-empty codeword. */
  lemma {:induction false} BuildProps(S: set<Entry>)
    requires WellFormed(S) && S != {}
    ensures EntryOk(Build(S))
    ensures Syms(Build(S).pairs) == AllSyms(S)
    ensures Build(S).weight == Weight(S)
    ensures |S| >= 2 ==> NonEmptyCodes(Build(S).pairs)
    decreases |S|
  {
    if |S| == 1 {
      BuildSingle(S);
    } else {
      StepFacts(S);
      BuildProps(Step(S));
      if |S| == 2 {
        MergeOk(Lo(S), Hi(S));
        BuildSingle(Step(S));
      }
    }
  }

  /** With one entry in the heap the loop does not run. */
  lemma BuildSingle(S: set<Entry>)
    requires WellFormed(S) && |S| == 1
    ensures Build(S) in S && S == {Build(S)}
    ensures Syms(Build(S).pairs) == AllSyms(S)
    ensures Build(S).weight == Weight(S)
  {
    var e := Build(S);
    RemoveCard(S, e);
    assert S - {e} == {};
    assert S == {e};
    WeightRemove(S, e);
    forall c | c in AllSyms(S) ensures c in Syms(e.pairs) {
      var x :| x in S && c in Syms(x.pairs);
    }
  }

  /** The heap as first built: one leaf per dictionary item, and nothing
      else. */
  function Seed(freq: map<char, int>): (r: set<Entry>)
    ensures forall c :: c in freq ==> Leaf(c, freq[c]) in r
  {
    set c | c in freq :: Leaf(c, freq[c])
  }

  lemma SymsLeaf(c: char, w: int)
    ensures Syms(Leaf(c, w).pairs) == {c}
  {
    assert Leaf(c, w).pairs[0] in Leaf(c, w).pairs;
  }

  /** The seed is a forest with one entry per key, holding exactly the
      keys, whose total weight is the sum of the dictionary's values. */
  lemma SeedFacts(freq: map<char, int>)
    ensures WellFormed(Seed(freq))
    ensures |Seed(freq)| == |freq|
    ensures AllSyms(Seed(freq)) == freq.Keys
    ensures Weight(Seed(freq)) == Total(freq)
  {
    SeedWellFormed(freq);
    SeedSyms(freq);
    SeedSize(freq);
  }

  lemma SeedWellFormed(freq: map<char, int>)
    ensures WellFormed(Seed(freq))
  {
    var S := Seed(freq);
    forall e | e in S ensures EntryOk(e) {
      var k :| k in freq && e == Leaf(k, freq[k]);
    }
    forall a, b | a in S && b in S && a != b ensures Syms(a.pairs) !! Syms(b.pairs) {
      var ka :| ka in freq && a == Leaf(ka, freq[ka]);
      var kb :| kb in freq && b == Leaf(kb, freq[kb]);
      SymsLeaf(ka, freq[ka]);
      SymsLeaf(kb, freq[kb]);
    }
  }

  lemma SeedSyms(freq: map<char, int>)
    ensures AllSyms(Seed(freq)) == freq.Keys
  {
    var S := Seed(freq);
    forall c | c in AllSyms(S) ensures c in freq {
      var e :| e in S && c in Syms(e.pairs);
      var k :| k in freq && e == Leaf(k, freq[k]);
      SymsLeaf(k, freq[k]);
    }
    forall c | c in freq ensures c in AllSyms(S) {
      SymsLeaf(c, freq[c]);
      assert Leaf(c, freq[c]) in S;
    }
  }

  lemma {:induction false} SeedSize(freq: map<char, int>)
    ensures |Seed(freq)| == |freq|
    ensures Weight(Seed(freq)) == Total(freq)
    decreases |freq|
  {
    var S := Seed(freq);
    if freq == map[] {
      assert S == {};
    } else {
      var k :| k in freq;
      var rest := freq - {k};
      assert rest.Keys == freq.Keys - {k};
      assert |rest| < |freq| by { assert rest.Keys < freq.Keys; }
      SeedSize(rest);
      var leaf := Leaf(k, freq[k]);
      forall e | e in S - {leaf} ensures e in Seed(rest) {
        var j :| j in freq && e == Leaf(j, freq[j]);
        assert j != k && j in rest;
      }
      forall e | e in Seed(rest) ensures e in S - {leaf} {
        var j :| j in rest && e == Leaf(j, rest[j]);
        assert j in freq && e == Leaf(j, freq[j]);
        assert e.pairs[0].sym != leaf.pairs[0].sym;
      }
      assert S - {leaf} == Seed(rest);
      RemoveCard(S, leaf);
      WeightRemove(S, leaf);
      TotalRemove(freq, k);
    }
  }
}
