/** `huffmanCode(aDict)` (tinyzip.py lines 8-20): the heap of entries, the
    merge loop, and the final sort, with the properties of the code it
    returns. The heap is a sequence; `heapify`, `heappop` and `heappush` are
    modelled by what they guarantee (a pop returns the least entry), not by
    the array layout the `heapq` library keeps. */
module Huffman {
  import opened Codewords
  import opened Totals
  import opened Forest
  import opened PairSort

  /** The message of the IndexError `heappop` raises on an empty heap. */
  const EmptyHeapError := "index out of range"

  /** The heap as a list: good entries, no symbol in two of them. */
  predicate HeapOk(heap: seq<Entry>)
  {
    && (forall i :: 0 <= i < |heap| ==> EntryOk(heap[i]))
    && (forall i, j :: 0 <= i < j < |heap| ==> Syms(heap[i].pairs) !! Syms(heap[j].pairs))
  }

  function Elems(heap: seq<Entry>): set<Entry>
  {
    set e | e in heap
  }

  /** The entry left on the heap once the loop is done: a function of the
      dictionary alone, whatever order `aDict.items()` visits the keys in. */
  ghost function Root(aDict: map<char, int>): Entry
    requires aDict != map[]
  {
    SeedWellFormed(aDict);
    SeedSize(aDict);
    assert aDict.Keys != {};
    Build(Seed(aDict))
  }

  /** What `huffmanCode` returns for a dictionary: an IndexError when it is
      empty, otherwise the pairs of the last entry standing, sorted. */
  ghost function HuffmanCodeSpec(aDict: map<char, int>): (r: Result<seq<Pair>>)
    ensures r.Err? <==> aDict == map[]
    ensures r.Err? ==> r.error == EmptyHeapError
  {
    if aDict == map[] then Err(EmptyHeapError)
    else Ok(SortByCodeLength(Root(aDict).pairs))
  }

  /** `huffmanCode` fails exactly on the empty dictionary; otherwise it
      returns one pair per key, with binary codewords none of which is a
      prefix of another, sorted by codeword length, and with no empty
      codeword as soon as there are two keys. */
  lemma HuffmanCodeIsPrefixCode(aDict: map<char, int>)
    ensures HuffmanCodeSpec(aDict).Err? <==> aDict == map[]
    ensures HuffmanCodeSpec(aDict).Err? ==> HuffmanCodeSpec(aDict).error == EmptyHeapError
    ensures HuffmanCodeSpec(aDict).Ok? ==>
      var code := HuffmanCodeSpec(aDict).value;
      && |code| == |aDict| && Syms(code) == aDict.Keys
      && PrefixCode(code) && BinaryCodes(code) && SortedByKey(code)
      && (|aDict| >= 2 ==> NonEmptyCodes(code))
  {
    if aDict != map[] {
      var root := Root(aDict);
      RootFacts(aDict);
      var code := SortByCodeLength(root.pairs);
      SortKeepsPrefixCode(root.pairs);
      SortSameElements(root.pairs);
      PrefixCodeCard(code);
      assert Syms(code) == Syms(root.pairs);
    }
  }

  /** The last entry is a good one and carries every key. */
  lemma RootFacts(aDict: map<char, int>)
    requires aDict != map[]
    ensures EntryOk(Root(aDict)) && Syms(Root(aDict).pairs) == aDict.Keys
    ensures |aDict| >= 2 ==> NonEmptyCodes(Root(aDict).pairs)
  {
    SeedWellFormed(aDict);
    SeedSyms(aDict);
    SeedSize(aDict);
    BuildProps(Seed(aDict));
  }

  /** The weight of the last entry is the sum of all the weights: merging
      never loses or invents weight. */
  lemma RootWeight(aDict: map<char, int>)
    requires aDict != map[]
    ensures Root(aDict).weight == Total(aDict)
  {
    SeedFacts(aDict);
    BuildProps(Seed(aDict));
  }

  /** A single symbol never enters the loop and keeps the empty codeword. */
  lemma HuffmanCodeSingle(c: char, w: int)
    ensures HuffmanCodeSpec(map[c := w]) == Ok([Pair(c, "")])
  {
    var leaf := Leaf(c, w);
    SeedOne(c, w);
    BuildSingle({leaf});
    assert Root(map[c := w]) == leaf;
    assert SortByCodeLength(leaf.pairs) == leaf.pairs;
  }

  lemma SeedOne(c: char, w: int)
    ensures Seed(map[c := w]) == {Leaf(c, w)}
    ensures WellFormed({Leaf(c, w)})
  {
    var aDict := map[c := w];
    SeedWellFormed(aDict);
    forall e | e in Seed(aDict) ensures e == Leaf(c, w) { }
    assert Leaf(c, aDict[c]) in Seed(aDict);
  }

  /** Two symbols: one merge, the lighter one (the smaller symbol on a tie)
      is popped first and gets "0", the other "1"; the result lists them by
      symbol. */
  lemma HuffmanCodeTwo(a: char, wa: int, b: char, wb: int)
    requires a != b && (wa < wb || (wa == wb && a < b))
    ensures HuffmanCodeSpec(map[a := wa, b := wb]) ==
      Ok(if a < b then [Pair(a, "0"), Pair(b, "1")] else [Pair(b, "1"), Pair(a, "0")])
  {
    var la, lb := Leaf(a, wa), Leaf(b, wb);
    var S := {la, lb};
    SeedTwo(a, wa, b, wb);
    var m := MergeTwo(la, lb);
    BuildSingle({m});
    assert Root(map[a := wa, b := wb]) == m;
    SortTwo(Pair(a, "0"), Pair(b, "1"));
  }

  /** Sorting two codewords of the same length orders them by symbol. */
  lemma SortTwo(p: Pair, q: Pair)
    requires |p.code| == |q.code| && p.sym != q.sym
    ensures SortByCodeLength([p, q]) == if p.sym < q.sym then [p, q] else [q, p]
  {
    assert [p, q][1..] == [q];
    assert SortByCodeLength([q]) == [q];
  }

  lemma SeedTwo(a: char, wa: int, b: char, wb: int)
    requires a != b
    ensures Seed(map[a := wa, b := wb]) == {Leaf(a, wa), Leaf(b, wb)}
    ensures WellFormed({Leaf(a, wa), Leaf(b, wb)})
  {
    var aDict := map[a := wa, b := wb];
    SeedWellFormed(aDict);
    forall e | e in Seed(aDict) ensures e == Leaf(a, wa) || e == Leaf(b, wb) { }
    assert Leaf(a, aDict[a]) in Seed(aDict);
    assert Leaf(b, aDict[b]) in Seed(aDict);
  }

  /** The one iteration on two leaves. */
  lemma MergeTwo(la: Entry, lb: Entry) returns (m: Entry)
    requires WellFormed({la, lb}) && la != lb && Precedes(la, lb)
    requires la.pairs == [Pair(la.pairs[0].sym, "")] && lb.pairs == [Pair(lb.pairs[0].sym, "")]
    ensures m.pairs == [Pair(la.pairs[0].sym, "0"), Pair(lb.pairs[0].sym, "1")]
    ensures WellFormed({m}) && Build({la, lb}) == Build({m})
  {
    var S := {la, lb};
    MinOfUnique(S, la);
    assert S - {la} == {lb};
    MinOfUnique({lb}, lb);
    StepFacts(S);
    m := Merge(la, lb);
    assert Prefixed('0', la.pairs)[0] == Pair(la.pairs[0].sym, "0");
    assert Prefixed('1', lb.pairs)[0] == Pair(lb.pairs[0].sym, "1");
  }

  /** `huffmanCode(aDict)`. `merges` counts the iterations of the `while`
      loop. */
  method HuffmanCode(aDict: map<char, int>) returns (r: Result<seq<Pair>>, ghost merges: nat)
    ensures r == HuffmanCodeSpec(aDict)
    ensures aDict != map[] ==> merges == |aDict| - 1
  {
    var heap := SeedHeap(aDict);
    // heapify(heap) only reorders the list.
    merges := 0;
    while |heap| > 1
      invariant HeapOk(heap) && merges + |heap| == |aDict|
      invariant heap == [] <==> aDict == map[]
      invariant heap != [] ==> WellFormed(Elems(heap)) && Elems(heap) != {}
      invariant heap != [] ==> Build(Elems(heap)) == Build(Seed(aDict))
      decreases |heap|
    {
      heap := MergeLightest(heap);
      merges := merges + 1;
    }
    if heap == [] {
      r := Err(EmptyHeapError);
    } else {
      var top, rest := PopMin(heap);
      BuildSingle(Elems(heap));
      r := Ok(SortByCodeLength(top.pairs));
    }
  }

  /** One iteration of the `while` loop (tinyzip.py lines 13-19): pop the
      two lightest entries, put '0' in front of the codewords of the first
      and '1' in front of those of the second, push their merge. The heap
      afterwards holds one entry fewer and leads to the same final entry. */
  method MergeLightest(heap: seq<Entry>) returns (heap': seq<Entry>)
    requires HeapOk(heap) && |heap| >= 2
    ensures HeapOk(heap') && |heap'| == |heap| - 1
    ensures WellFormed(Elems(heap)) && |Elems(heap)| >= 2
    ensures Elems(heap') == Step(Elems(heap))
    ensures WellFormed(Elems(heap')) && Elems(heap') != {}
    ensures Build(Elems(heap')) == Build(Elems(heap))
  {
    ghost var S := Elems(heap);
    var lo, hi, rest;
    lo, rest := PopMin(heap);
    hi, rest := PopMin(rest);
    var loPairs := PrependBit('0', lo.pairs);
    var hiPairs := PrependBit('1', hi.pairs);
    var merged := Entry(lo.weight + hi.weight, loPairs + hiPairs);
    HeapForest(heap);
    MergedHeapPush(S, rest, lo, hi, merged);
    heap' := rest + [merged];
  }

  /** `heap = [[freq, [aChar, ""]] for aChar, freq in aDict.items()]`. The
      keys are visited in an arbitrary order, as `aDict.items()` may yield
      them in any order; what the loop builds is the same set for every
      order. */
  method SeedHeap(aDict: map<char, int>) returns (heap: seq<Entry>)
    ensures HeapOk(heap) && Elems(heap) == Seed(aDict)
    ensures |heap| == |aDict| && WellFormed(Seed(aDict))
    ensures heap != [] ==> Seed(aDict) != {}
  {
    heap := [];
    var todo := aDict.Keys;
    while todo != {}
      invariant todo <= aDict.Keys
      invariant HeapOk(heap)
      invariant Elems(heap) == Seed(aDict - todo)
      decreases todo
    {
      var c :| c in todo;
      SeedGrow(aDict, todo, c);
      SeedHeapPush(heap, aDict - todo, c, aDict[c]);
      heap := heap + [Leaf(c, aDict[c])];
      todo := todo - {c};
    }
    assert aDict - {} == aDict;
    SeededHeap(aDict, heap);
  }

  /** The heap the seeding loop leaves: one leaf per key, a forest. */
  lemma SeededHeap(aDict: map<char, int>, heap: seq<Entry>)
    requires HeapOk(heap) && Elems(heap) == Seed(aDict)
    ensures |heap| == |aDict| && WellFormed(Seed(aDict))
    ensures heap != [] ==> Seed(aDict) != {}
  {
    SeedWellFormed(aDict);
    SeedSize(aDict);
    HeapForest(heap);
    if heap != [] {
      assert heap[0] in Seed(aDict);
    }
  }

  /** `heappop(heap)`: removes and returns the least entry. */
  method PopMin(heap: seq<Entry>) returns (m: Entry, rest: seq<Entry>)
    requires HeapOk(heap) && heap != []
    ensures HeapOk(rest) && |rest| == |heap| - 1
    ensures m in heap && Elems(rest) == Elems(heap) - {m}
    ensures forall e :: e in rest ==> Precedes(m, e)
    ensures WellFormed(Elems(heap)) && m in Elems(heap) && m == MinOf(Elems(heap))
  {
    var best := 0;
    for i := 1 to |heap|
      invariant 0 <= best < i
      invariant forall j :: 0 <= j < i && j != best ==> Precedes(heap[best], heap[j])
    {
      HeapDistinctFirst(heap, best, i);
      if Precedes(heap[i], heap[best]) {
        best := i;
      }
    }
    m := heap[best];
    rest := heap[..best] + heap[best + 1..];
    RemoveLeast(heap, best);
  }

  /** Taking out the least position leaves a good heap list whose entries
      all follow the one taken out. */
  lemma RemoveLeast(heap: seq<Entry>, k: nat)
    requires HeapOk(heap) && k < |heap|
    requires forall j :: 0 <= j < |heap| && j != k ==> Precedes(heap[k], heap[j])
    ensures HeapOk(heap[..k] + heap[k + 1..])
    ensures Elems(heap[..k] + heap[k + 1..]) == Elems(heap) - {heap[k]}
    ensures forall e :: e in heap[..k] + heap[k + 1..] ==> Precedes(heap[k], e)
    ensures WellFormed(Elems(heap)) && heap[k] in Elems(heap) && heap[k] == MinOf(Elems(heap))
  {
    var rest := heap[..k] + heap[k + 1..];
    HeapRemoveOk(heap, k);
    HeapRemoveElems(heap, k);
    HeapForest(heap);
    forall e | e in rest ensures Precedes(heap[k], e) {
      var i :| 0 <= i < |rest| && rest[i] == e;
      if i < k { assert rest[i] == heap[i]; } else { assert rest[i] == heap[i + 1]; }
    }
    forall e | e in Elems(heap) && e != heap[k] ensures Precedes(heap[k], e) {
      assert e in rest;
    }
    MinOfUnique(Elems(heap), heap[k]);
  }

  /** `for pair in group: pair[1] = bit + pair[1]`. */
  method PrependBit(bit: char, group: seq<Pair>) returns (out: seq<Pair>)
    ensures out == Prefixed(bit, group)
  {
    out := group;
    for i := 0 to |out|
      invariant |out| == |group|
      invariant forall j :: 0 <= j < i ==> out[j] == Pair(group[j].sym, [bit] + group[j].code)
      invariant forall j :: i <= j < |out| ==> out[j] == group[j]
    {
      out := out[i := Pair(out[i].sym, [bit] + out[i].code)];
    }
    assert forall j :: 0 <= j < |out| ==> out[j] == Prefixed(bit, group)[j];
  }

  lemma HeapDistinctFirst(heap: seq<Entry>, i: nat, j: nat)
    requires HeapOk(heap) && i < |heap| && j < |heap| && i != j
    ensures First(heap[i]) != First(heap[j])
  {
    FirstInSyms(heap[i]);
    FirstInSyms(heap[j]);
  }

  /** A heap list holds a forest with one entry per position. */
  lemma HeapForest(heap: seq<Entry>)
    requires HeapOk(heap)
    ensures WellFormed(Elems(heap)) && |Elems(heap)| == |heap|
  {
    var S := Elems(heap);
    forall a, b | a in S && b in S && a != b ensures Syms(a.pairs) !! Syms(b.pairs) {
      var i :| 0 <= i < |heap| && heap[i] == a;
      var j :| 0 <= j < |heap| && heap[j] == b;
      if i > j {
        assert Syms(heap[j].pairs) !! Syms(heap[i].pairs);
      }
    }
    HeapCard(heap);
  }

  lemma {:induction false} HeapCard(heap: seq<Entry>)
    requires HeapOk(heap)
    ensures |Elems(heap)| == |heap|
  {
    if heap != [] {
      var t := heap[1..];
      HeapTail(heap);
      HeapCard(t);
      assert Elems(heap) == Elems(t) + {heap[0]};
    }
  }

  /** The positions after the first form a good heap list without the
      first entry. */
  lemma HeapTail(heap: seq<Entry>)
    requires HeapOk(heap) && heap != []
    ensures HeapOk(heap[1..]) && heap[0] !in heap[1..]
  {
    var t := heap[1..];
    forall i, j | 0 <= i < j < |t| ensures Syms(t[i].pairs) !! Syms(t[j].pairs) {
      assert t[i] == heap[i + 1] && t[j] == heap[j + 1];
    }
    forall k | 0 <= k < |t| ensures t[k] != heap[0] {
      HeapDistinctFirst(heap, 0, k + 1);
    }
  }

  /** Removing one position keeps a heap list good. */
  lemma HeapRemoveOk(heap: seq<Entry>, k: nat)
    requires HeapOk(heap) && k < |heap|
    ensures HeapOk(heap[..k] + heap[k + 1..])
  {
    var rest := heap[..k] + heap[k + 1..];
    forall i | 0 <= i < |rest| ensures rest[i] == heap[if i < k then i else i + 1] { }
  }

  /** Removing one position takes out exactly the entry at that position. */
  lemma HeapRemoveElems(heap: seq<Entry>, k: nat)
    requires HeapOk(heap) && k < |heap|
    ensures forall e :: e in heap[..k] + heap[k + 1..] ==> e in heap && e != heap[k]
    ensures forall e :: e in heap && e != heap[k] ==> e in heap[..k] + heap[k + 1..]
  {
    var rest := heap[..k] + heap[k + 1..];
    forall e | e in rest ensures e in heap && e != heap[k] {
      var i :| 0 <= i < |rest| && rest[i] == e;
      var i' := if i < k then i else i + 1;
      assert rest[i] == heap[i'];
      HeapDistinctFirst(heap, i', k);
    }
    forall e | e in heap && e != heap[k] ensures e in rest {
      var i :| 0 <= i < |heap| && heap[i] == e;
      if i < k { assert rest[i] == e; } else { assert rest[i - 1] == e; }
    }
  }

  /** The seed with one more key taken from `todo`. */
  lemma SeedGrow(aDict: map<char, int>, todo: set<char>, c: char)
    requires todo <= aDict.Keys && c in todo
    ensures Seed(aDict - (todo - {c})) == Seed(aDict - todo) + {Leaf(c, aDict[c])}
  {
    var big, small := aDict - (todo - {c}), aDict - todo;
    forall e | e in Seed(big) ensures e in Seed(small) + {Leaf(c, aDict[c])} {
      var k :| k in big && e == Leaf(k, big[k]);
      if k != c { assert k in small; }
    }
    forall e | e in Seed(small) ensures e in Seed(big) {
      var k :| k in small && e == Leaf(k, small[k]);
      assert k in big;
    }
    assert c in big;
  }

  /** Pushing the leaf of a key not yet in the heap keeps a heap list good. */
  lemma SeedHeapPush(heap: seq<Entry>, done: map<char, int>, c: char, w: int)
    requires HeapOk(heap) && Elems(heap) == Seed(done) && c !in done
    ensures HeapOk(heap + [Leaf(c, w)])
  {
    SymsLeaf(c, w);
    SeedSyms(done);
    forall e | e in heap ensures Syms(e.pairs) !! Syms(Leaf(c, w).pairs) {
      assert e in Seed(done);
      forall x | x in Syms(e.pairs) ensures x in AllSyms(Seed(done)) { }
    }
    HeapPush(heap, Leaf(c, w));
  }

  /** Pushing the merged entry back keeps a heap list good, and the heap
      then holds the forest one iteration produces, whose final entry is
      the same. */
  lemma MergedHeapPush(S: set<Entry>, heap: seq<Entry>, lo: Entry, hi: Entry, merged: Entry)
    requires WellFormed(S) && |S| >= 2
    requires lo == MinOf(S) && S - {lo} != {} && WellFormed(S - {lo}) && hi == MinOf(S - {lo})
    requires HeapOk(heap) && Elems(heap) == S - {lo} - {hi}
    requires merged.weight == lo.weight + hi.weight
    requires merged.pairs == Prefixed('0', lo.pairs) + Prefixed('1', hi.pairs)
    ensures HeapOk(heap + [merged])
    ensures Elems(heap + [merged]) == Step(S) && merged in Step(S)
    ensures WellFormed(Step(S)) && Build(Step(S)) == Build(S)
  {
    var m := Merge(lo, hi);
    assert merged == m;
    assert lo == Lo(S) && hi == Hi(S);
    MergeOk(lo, hi);
    forall e | e in heap ensures Syms(e.pairs) !! Syms(m.pairs) {
      assert e in Elems(heap);
    }
    HeapPush(heap, m);
    assert Elems(heap + [m]) == Elems(heap) + {m};
    assert S - {lo} - {hi} == S - {lo, hi};
    StepFacts(S);
  }

  /** Pushing an entry whose symbols are new keeps a heap list good. */
  lemma HeapPush(heap: seq<Entry>, e: Entry)
    requires HeapOk(heap) && EntryOk(e)
    requires forall x :: x in heap ==> Syms(x.pairs) !! Syms(e.pairs)
    ensures HeapOk(heap + [e])
  {
    var h := heap + [e];
    forall i, j | 0 <= i < j < |h| ensures Syms(h[i].pairs) !! Syms(h[j].pairs) {
      assert h[i] == heap[i];
      if j == |heap| { assert heap[i] in heap; }
    }
  }
}
