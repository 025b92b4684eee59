/** Codewords: the `[symbol, codeword]` pairs that tinyzip's Huffman builder
    manipulates, and the predicates that say what a good code looks like.
    A codeword is a string over '0' and '1'; "a is a prefix of b" is Dafny's
    built-in sequence order `a <= b`. */
module Codewords {

  /** The outcome of an operation that can raise (Python's IndexError on an
      empty heap is the only error the core raises). */
  datatype Result<T> = Ok(value: T) | Err(error: string)

  /** One `[aChar, codeword]` list of the Python source. */
  datatype Pair = Pair(sym: char, code: string)

  predicate IsBinary(s: string)
  {
    forall i :: 0 <= i < |s| ==> s[i] == '0' || s[i] == '1'
  }

  /** Two entries of a code table may live side by side: different symbols,
      and neither codeword is a prefix of the other. */
  predicate Compatible(p: Pair, q: Pair)
  {
    p.sym != q.sym && !(p.code <= q.code) && !(q.code <= p.code)
  }

  /** Distinct symbols and a prefix-free set of codewords. */
  predicate PrefixCode(s: seq<Pair>)
  {
    forall i, j :: 0 <= i < j < |s| ==> Compatible(s[i], s[j])
  }

  predicate BinaryCodes(s: seq<Pair>)
  {
    forall p :: p in s ==> IsBinary(p.code)
  }

  predicate NonEmptyCodes(s: seq<Pair>)
  {
    forall p :: p in s ==> p.code != []
  }

  /** The set of symbols that occur in a pair list. */
  function Syms(s: seq<Pair>): set<char>
  {
    set p | p in s :: p.sym
  }

  lemma SymsAppend(a: seq<Pair>, b: seq<Pair>)
    ensures Syms(a + b) == Syms(a) + Syms(b)
  {
    forall c | c in Syms(a + b) ensures c in Syms(a) + Syms(b) {
      var p :| p in a + b && p.sym == c;
      if p in a { assert c in Syms(a); } else { assert c in Syms(b); }
    }
    forall c | c in Syms(a) + Syms(b) ensures c in Syms(a + b) {
      if c in Syms(a) {
        var p :| p in a && p.sym == c;
        assert p in a + b;
      } else {
        var p :| p in b && p.sym == c;
        assert p in a + b;
      }
    }
  }

  /** A list whose symbols are pairwise distinct has as many symbols as
      entries: every symbol occurs exactly once. */
  lemma {:induction false} PrefixCodeCard(s: seq<Pair>)
    requires PrefixCode(s)
    ensures |Syms(s)| == |s|
  {
    if s != [] {
      PrefixCodeTail(s);
      PrefixCodeCard(s[1..]);
      SymsCons(s);
    }
  }

  /** The symbols of a non-empty prefix code: the first one, which occurs
      nowhere else, and those of the rest. */
  lemma SymsCons(s: seq<Pair>)
    requires s != [] && PrefixCode(s)
    ensures Syms(s) == {s[0].sym} + Syms(s[1..]) && s[0].sym !in Syms(s[1..])
  {
    var t := s[1..];
    forall k | 0 <= k < |t| ensures t[k].sym != s[0].sym {
      assert t[k] == s[k + 1];
      assert Compatible(s[0], s[k + 1]);
    }
    assert s == [s[0]] + t;
    SymsAppend([s[0]], t);
    assert Syms([s[0]]) == {s[0].sym};
  }

  lemma CompatibleSymmetric(p: Pair, q: Pair)
    requires Compatible(p, q)
    ensures Compatible(q, p)
  {
  }

  lemma PrefixCodeTail(s: seq<Pair>)
    requires s != [] && PrefixCode(s)
    ensures PrefixCode(s[1..])
  {
    var t := s[1..];
    forall i, j | 0 <= i < j < |t| ensures Compatible(t[i], t[j]) {
      assert t[i] == s[i + 1] && t[j] == s[j + 1];
    }
  }

  lemma PrefixCodeCons(p: Pair, s: seq<Pair>)
    requires PrefixCode(s)
    requires forall q :: q in s ==> Compatible(p, q)
    ensures PrefixCode([p] + s)
  {
    var r := [p] + s;
    forall i, j | 0 <= i < j < |r| ensures Compatible(r[i], r[j]) {
      if i > 0 {
        assert r[i] == s[i - 1] && r[j] == s[j - 1];
      } else {
        assert r[j] == s[j - 1];
        assert r[j] in s;
      }
    }
  }
}
