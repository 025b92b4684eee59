/** `build_code_table(huffman_tree)` (tinyzip.py lines 67-78) and what the
    code table is used for: `ba.encode(huffman, text)` (line 31) writes the
    codeword of every character one after the other. Decoding is stated
    here only as the function that reads the codewords back, to show that
    a prefix-free table loses nothing. A `bitarray` is a sequence of bits. */
module CodeTable {
  import opened Codewords

  type Bits = seq<bool>

  /** The message of the ValueError `encode` raises on a character that has
      no codeword. */
  const UndefinedSymbol := "symbol not defined in prefix code"

  /** `ba.to01()`: the bits written as '0' and '1'. */
  function To01(bits: Bits): (r: string)
    ensures |r| == |bits| && IsBinary(r)
    ensures forall i :: 0 <= i < |bits| ==> (r[i] == '1' <==> bits[i])
  {
    seq(|bits|, i requires 0 <= i < |bits| => if bits[i] then '1' else '0')
  }

  /** `bitarray(code)` for a codeword written in '0' and '1'; `to01` gives
      the codeword back. */
  function ToBits(code: string): (r: Bits)
    requires IsBinary(code)
    ensures |r| == |code| && To01(r) == code
  {
    seq(|code|, i requires 0 <= i < |code| => code[i] == '1')
  }

  /** Turning codewords into bits keeps "is a prefix of" both ways. */
  lemma ToBitsPrefix(x: string, y: string)
    requires IsBinary(x) && IsBinary(y)
    ensures ToBits(x) <= ToBits(y) <==> x <= y
  {
    if ToBits(x) <= ToBits(y) {
      assert forall i :: 0 <= i < |x| ==> x[i] == To01(ToBits(y))[i];
    }
  }

  /** The dictionary the loop of `build_code_table` builds: each pair in
      turn sets the entry of its symbol, so a later pair with the same
      symbol overwrites an earlier one. The table never has more entries
      than the tree has pairs, and has one as soon as the tree has a pair. */
  function CodeTableOf(tree: seq<Pair>): (r: map<char, Bits>)
    requires BinaryCodes(tree)
    ensures |r| <= |tree|
    ensures tree != [] ==> r != map[]
  {
    if tree == [] then map[]
    else
      var last := tree[|tree| - 1];
      assert forall p :: p in tree[..|tree| - 1] ==> p in tree;
      CodeTableOf(tree[..|tree| - 1])[last.sym := ToBits(last.code)]
  }

  /** No later pair of `tree` has the symbol of pair `i`. */
  predicate LastOccurrence(tree: seq<Pair>, i: int)
    requires 0 <= i < |tree|
  {
    forall j :: i < j < |tree| ==> tree[j].sym != tree[i].sym
  }

  /** The table has exactly the symbols of the tree. */
  lemma {:induction false} CodeTableKeys(tree: seq<Pair>)
    requires BinaryCodes(tree)
    ensures CodeTableOf(tree).Keys == Syms(tree)
  {
    if tree != [] {
      var init := tree[..|tree| - 1];
      assert forall p :: p in init ==> p in tree;
      CodeTableKeys(init);
      SymsSnoc(tree);
    }
  }

  /** A symbol gets the codeword of its last pair: a later duplicate
      overwrites an earlier one. */
  lemma {:induction false} CodeTableLastWins(tree: seq<Pair>, i: nat)
    requires BinaryCodes(tree) && i < |tree| && LastOccurrence(tree, i)
    ensures tree[i].sym in CodeTableOf(tree)
    ensures CodeTableOf(tree)[tree[i].sym] == ToBits(tree[i].code)
  {
    var n := |tree| - 1;
    if i < n {
      var init := tree[..n];
      assert forall p :: p in init ==> p in tree;
      LastOccurrenceInit(tree, i);
      CodeTableLastWins(init, i);
    }
  }

  lemma SymsSnoc(tree: seq<Pair>)
    requires tree != []
    ensures Syms(tree) == Syms(tree[..|tree| - 1]) + {tree[|tree| - 1].sym}
  {
    var n := |tree| - 1;
    assert tree == tree[..n] + [tree[n]];
    SymsAppend(tree[..n], [tree[n]]);
    assert Syms([tree[n]]) == {tree[n].sym};
  }

  /** The last pair with a symbol other than the final one's is also last
      among the pairs before the final one. */
  lemma LastOccurrenceInit(tree: seq<Pair>, i: nat)
    requires i < |tree| - 1 && LastOccurrence(tree, i)
    ensures tree[|tree| - 1].sym != tree[i].sym
    ensures LastOccurrence(tree[..|tree| - 1], i)
  {
    var init := tree[..|tree| - 1];
    forall j | i < j < |init| ensures init[j].sym != init[i].sym {
      assert init[j] == tree[j] && init[i] == tree[i];
    }
  }

  /** `build_code_table(huffman_tree)`. */
  method BuildCodeTable(huffmanTree: seq<Pair>) returns (codeTable: map<char, Bits>)
    requires BinaryCodes(huffmanTree)
    ensures codeTable == CodeTableOf(huffmanTree)
  {
    codeTable := map[];
    for i := 0 to |huffmanTree|
      invariant BinaryCodes(huffmanTree[..i])
      invariant codeTable == CodeTableOf(huffmanTree[..i])
    {
      assert huffmanTree[..i + 1][..i] == huffmanTree[..i];
      assert huffmanTree[i] in huffmanTree;
      codeTable := codeTable[huffmanTree[i].sym := ToBits(huffmanTree[i].code)];
    }
    assert huffmanTree[..|huffmanTree|] == huffmanTree;
  }

  /** No codeword of the table is a prefix of another one. */
  predicate PrefixFreeTable(table: map<char, Bits>)
  {
    forall a, b :: a in table && b in table && a != b ==> !(table[a] <= table[b])
  }

  predicate NonEmptyTable(table: map<char, Bits>)
  {
    forall c :: c in table ==> table[c] != []
  }

  /** The table of a prefix code gives every symbol its own codeword and
      is prefix-free; non-empty codewords stay non-empty. */
  lemma CodeTableOfPrefixCode(tree: seq<Pair>)
    requires BinaryCodes(tree) && PrefixCode(tree)
    ensures CodeTableOf(tree).Keys == Syms(tree)
    ensures forall p :: p in tree ==> CodeTableOf(tree)[p.sym] == ToBits(p.code)
    ensures PrefixFreeTable(CodeTableOf(tree))
    ensures NonEmptyCodes(tree) ==> NonEmptyTable(CodeTableOf(tree))
  {
    var table := CodeTableOf(tree);
    CodeTableKeys(tree);
    forall i | 0 <= i < |tree| ensures table[tree[i].sym] == ToBits(tree[i].code) {
      assert LastOccurrence(tree, i) by {
        forall j | i < j < |tree| ensures tree[j].sym != tree[i].sym {
          assert Compatible(tree[i], tree[j]);
        }
      }
      CodeTableLastWins(tree, i);
    }
    forall a, b | a in table && b in table && a != b ensures !(table[a] <= table[b]) {
      var i :| 0 <= i < |tree| && tree[i].sym == a;
      var j :| 0 <= j < |tree| && tree[j].sym == b;
      ToBitsPrefix(tree[i].code, tree[j].code);
      if i < j {
        assert Compatible(tree[i], tree[j]);
      } else {
        assert Compatible(tree[j], tree[i]);
      }
    }
  }

  /** `ba.encode(huffman, text)` on an empty bitarray, modelled as the
      concatenation of the codewords of the characters of `text`. A
      character without a codeword raises; the checks bitarray makes on the
      dictionary itself are not modelled. */
  function Encode(table: map<char, Bits>, text: string): (r: Result<Bits>)
    ensures r.Ok? <==> forall i :: 0 <= i < |text| ==> text[i] in table
    ensures r.Err? ==> r.error == UndefinedSymbol
  {
    if text == [] then Ok([])
    else if text[0] !in table then Err(UndefinedSymbol)
    else
      match Encode(table, text[1..])
      case Ok(rest) => Ok(table[text[0]] + rest)
      case Err(e) => assert text[1..][0] == text[1]; Err(e)
  }

  /** Reads codewords off the front of `bits` until none is left: the
      decoder a prefix-free table makes possible. */
  ghost function Decode(table: map<char, Bits>, bits: Bits): Result<string>
    requires NonEmptyTable(table)
    decreases |bits|
  {
    if bits == [] then Ok([])
    else if exists c :: c in table && table[c] <= bits then
      var c :| c in table && table[c] <= bits;
      match Decode(table, bits[|table[c]|..])
      case Ok(rest) => Ok([c] + rest)
      case Err(e) => Err(e)
    else Err(UndefinedSymbol)
  }

  /** Two prefixes of the same bits: one is a prefix of the other. */
  lemma PrefixesOfSame(a: Bits, b: Bits, s: Bits)
    requires a <= s && b <= s
    ensures a <= b || b <= a
  {
    if |a| <= |b| {
      assert forall i :: 0 <= i < |a| ==> a[i] == s[i] == b[i];
    } else {
      assert forall i :: 0 <= i < |b| ==> b[i] == s[i] == a[i];
    }
  }

  /** With a prefix-free table the codeword at the front of the bits is
      determined: it is the one of `c` whenever that one is a prefix. */
  lemma DecodeFront(table: map<char, Bits>, c: char, bits: Bits)
    requires PrefixFreeTable(table) && NonEmptyTable(table)
    requires c in table && table[c] <= bits
    ensures Decode(table, bits) ==
      match Decode(table, bits[|table[c]|..])
      case Ok(rest) => Ok([c] + rest)
      case Err(e) => Err(e)
  {
    forall d | d in table && table[d] <= bits ensures d == c {
      PrefixesOfSame(table[d], table[c], bits);
    }
  }

  /** With a prefix-free table of non-empty codewords, decoding what
      `encode` wrote gives the text back. */
  lemma {:induction false} DecodeEncode(table: map<char, Bits>, text: string)
    requires PrefixFreeTable(table) && NonEmptyTable(table)
    requires forall i :: 0 <= i < |text| ==> text[i] in table
    ensures Encode(table, text).Ok?
    ensures Decode(table, Encode(table, text).value) == Ok(text)
  {
    if text != [] {
      var c, t := text[0], text[1..];
      assert forall i :: 0 <= i < |t| ==> t[i] == text[i + 1];
      DecodeEncode(table, t);
      var rest := Encode(table, t).value;
      var bits := table[c] + rest;
      assert Encode(table, text).value == bits;
      DecodeFront(table, c, bits);
      assert bits[|table[c]|..] == rest;
      assert text == [c] + t;
    }
  }

  /** Different texts never encode to the same bits. */
  lemma EncodeInjective(table: map<char, Bits>, a: string, b: string)
    requires PrefixFreeTable(table) && NonEmptyTable(table)
    requires forall i :: 0 <= i < |a| ==> a[i] in table
    requires forall i :: 0 <= i < |b| ==> b[i] in table
    requires Encode(table, a) == Encode(table, b)
    ensures a == b
  {
    DecodeEncode(table, a);
    DecodeEncode(table, b);
  }
}
