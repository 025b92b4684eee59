/** `build_freq_table(file, text)` (tinyzip.py lines 52-65): reads the file
    line by line, appends every line to `text` and counts every character.
    The open file object is modelled by the sequence of lines it yields. */
module FreqTable {
  import opened Totals

  /** The lines of a file joined back together, as `text += s` builds them. */
  function Flatten(lines: seq<string>): string
  {
    if lines == [] then [] else Flatten(lines[..|lines| - 1]) + lines[|lines| - 1]
  }

  /** The dictionary `build_freq_table` fills in, one character at a time:
      a character seen again has its count raised by one, a new one enters
      with 1. So every count is at least 1. */
  function Counts(s: string): (r: map<char, int>)
    ensures forall c :: c in r ==> 1 <= r[c]
  {
    if s == [] then map[]
    else
      var t, w := s[..|s| - 1], s[|s| - 1];
      assert s == t + [w];
      var m := Counts(t);
      m[w := if w in m then m[w] + 1 else 1]
  }

  /** The keys are exactly the characters read, and the count of each is
      its number of occurrences: at least 1 and at most the length. */
  lemma {:induction false} CountsMeaning(s: string)
    ensures forall c :: c in Counts(s) <==> c in s
    ensures forall c :: c in Counts(s) ==> Counts(s)[c] == multiset(s)[c]
    ensures forall c :: c in Counts(s) ==> 1 <= Counts(s)[c] <= |s|
  {
    if s != [] {
      var t, w := s[..|s| - 1], s[|s| - 1];
      assert s == t + [w];
      assert multiset(s) == multiset(t) + multiset{w};
      CountsMeaning(t);
    }
  }

  /** One more character: its count goes up by one, or it enters with 1. */
  lemma CountsSnoc(s: string, w: char)
    ensures Counts(s + [w]) == Counts(s)[w := if w in Counts(s) then Counts(s)[w] + 1 else 1]
  {
    var u := s + [w];
    assert u[..|u| - 1] == s && u[|u| - 1] == w;
  }

  /** The counts add up to the number of characters read. */
  lemma {:induction false} TotalCounts(s: string)
    ensures Total(Counts(s)) == |s|
  {
    if s == [] {
      assert Counts(s) == map[];
    } else {
      var t, w := s[..|s| - 1], s[|s| - 1];
      assert s == t + [w];
      TotalCounts(t);
      CountsSnoc(t, w);
      TotalUpdate(Counts(t), w, if w in Counts(t) then Counts(t)[w] + 1 else 1);
    }
  }

  /** Reading `s[j]` after `s[..j]`. */
  lemma CountsNext(before: string, s: string, j: nat)
    requires j < |s|
    ensures var m := Counts(before + s[..j]);
      Counts(before + s[..j + 1]) == m[s[j] := if s[j] in m then m[s[j]] + 1 else 1]
  {
    CountsSnoc(before + s[..j], s[j]);
    assert before + s[..j] + [s[j]] == before + s[..j + 1];
  }

  /** Reading line `i` after the lines before it. */
  lemma FlattenNext(file: seq<string>, i: nat)
    requires i < |file|
    ensures Flatten(file[..i + 1]) == Flatten(file[..i]) + file[i]
  {
    assert file[..i + 1][..i] == file[..i];
  }

  /** `build_freq_table(file, text)`: returns the table of character counts
      of the file and `text` with the whole file appended. */
  method BuildFreqTable(file: seq<string>, text: string) returns (freqDict: map<char, int>, text': string)
    ensures text' == text + Flatten(file)
    ensures freqDict == Counts(Flatten(file))
  {
    freqDict := map[];
    text' := text;
    ghost var read := [];
    for i := 0 to |file|
      invariant read == Flatten(file[..i])
      invariant text' == text + read
      invariant freqDict == Counts(read)
    {
      var s := file[i];
      text' := text' + s;
      assert read + s[..0] == read;
      for j := 0 to |s|
        invariant freqDict == Counts(read + s[..j])
      {
        var w := s[j];
        CountsNext(read, s, j);
        if w in freqDict {
          freqDict := freqDict[w := freqDict[w] + 1];
        } else {
          freqDict := freqDict[w := 1];
        }
      }
      assert s[..|s|] == s;
      FlattenNext(file, i);
      read := read + s;
    }
    assert file[..|file|] == file;
  }
}
