/** The pieces put together as the program uses them: count the characters
    of the text, build the Huffman code, turn it into a code table, encode
    the text (`zip`, tinyzip.py lines 22-38, without the file it writes).
    Two inputs break that chain as the code is written, and `CompleteCode`
    is the code construction they evidently call for. */
module Compress {
  import opened Codewords
  import opened Huffman
  import opened FreqTable
  import opened CodeTable

  /** The code `huffmanCode` is evidently meant to give: no codeword at all
      for an empty dictionary instead of an IndexError, and "0" rather than
      the empty codeword for a single symbol; otherwise the Huffman code. */
  ghost function CompleteCode(aDict: map<char, int>): seq<Pair>
  {
    if aDict == map[] then []
    else if |aDict| == 1 then
      var k :| k in aDict;
      [Pair(k, "0")]
    else HuffmanCodeSpec(aDict).value
  }

  /** Every dictionary gets a prefix code of non-empty binary codewords,
      one per key. */
  lemma CompleteCodeIsPrefixCode(aDict: map<char, int>)
    ensures var code := CompleteCode(aDict);
      && PrefixCode(code) && BinaryCodes(code) && NonEmptyCodes(code)
      && Syms(code) == aDict.Keys && |code| == |aDict|
  {
    var code := CompleteCode(aDict);
    if aDict == map[] {
    } else if |aDict| == 1 {
      var k :| k in aDict && code == [Pair(k, "0")];
      assert aDict.Keys == {k} by {
        assert |aDict.Keys - {k}| == |aDict.Keys| - 1 == 0;
      }
      assert Syms(code) == {k} by {
        assert Pair(k, "0") in code;
      }
    } else {
      HuffmanCodeIsPrefixCode(aDict);
    }
  }

  /** With the complete code, decoding the encoded text gives the text
      back, for every text, the empty one included. */
  lemma ZipRoundTrip(text: string)
    ensures var code := CompleteCode(Counts(text));
      && BinaryCodes(code) && NonEmptyTable(CodeTableOf(code))
      && Encode(CodeTableOf(code), text).Ok?
      && Decode(CodeTableOf(code), Encode(CodeTableOf(code), text).value) == Ok(text)
  {
    var code := CompleteCode(Counts(text));
    CompleteCodeIsPrefixCode(Counts(text));
    CodeTableOfPrefixCode(code);
    CountsMeaning(text);
    var table := CodeTableOf(code);
    forall i | 0 <= i < |text| ensures text[i] in table {
      assert text[i] in Counts(text);
    }
    DecodeEncode(table, text);
  }

  /** As written, an empty file makes `huffmanCode` pop from an empty heap. */
  lemma EmptyTextRaises()
    ensures Counts("") == map[]
    ensures HuffmanCodeSpec(Counts("")) == Err(EmptyHeapError)
  {
  }

  /** As written, a text with one distinct character gets the empty
      codeword. Under the concatenation model of `encode`, "aaaa" and "a"
      then both give no bits. */
  lemma SingleSymbolLosesText()
    ensures HuffmanCodeSpec(Counts("aaaa")) == Ok([Pair('a', "")])
    ensures var table := CodeTableOf([Pair('a', "")]);
      Encode(table, "aaaa") == Encode(table, "a") == Ok([])
  {
    assert "aaaa"[..3] == "aaa" && "aaa"[..2] == "aa" && "aa"[..1] == "a";
    assert Counts("aaaa") == map['a' := 4];
    HuffmanCodeSingle('a', 4);
    var table := CodeTableOf([Pair('a', "")]);
    assert [Pair('a', "")][..0] == [];
    assert table == map['a' := []];
    assert Encode(table, "a") == Ok([]) by {
      assert "a"[1..] == [] && "a"[0] == 'a';
      assert Encode(table, "a"[1..]) == Ok([]);
      assert table['a'] + [] == [];
    }
    assert Encode(table, "aa") == Ok([]) by { assert "aa"[1..] == "a"; }
    assert Encode(table, "aaa") == Ok([]) by { assert "aaa"[1..] == "aa"; }
    assert "aaaa"[1..] == "aaa";
  }
}
