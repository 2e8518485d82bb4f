/** Counting characters as the compressor does: the input arrives line by
    line (the line terminators already removed by the line reader) and a
    '\n' is counted after every line, the last one included. */
module Frequency {
  import opened JavaInt

  /** The character sequence the compressor accounts for: every line
      followed by '\n'. */
  function Text(lines: seq<string>): (t: string)
  {
    if lines == [] then [] else Text(lines[..|lines| - 1]) + lines[|lines| - 1] + "\n"
  }

  /** The table of s, built one character at a time; HistogramCounts says
      it holds the count of every character of s and no other key. */
  function Histogram(s: string): (h: map<char, int>)
  {
    if s == [] then map[] else Increment(Histogram(s[..|s| - 1]), s[|s| - 1])
  }

  /** The table has a key for exactly the characters of s. */
  lemma {:induction false} HistogramKeys(s: string)
    ensures forall c :: c in Histogram(s) <==> c in s
  {
    if s != [] {
      var init := s[..|s| - 1];
      HistogramKeys(init);
      assert s == init + [s[|s| - 1]];
    }
  }

  /** The table holds exactly the characters of s, each with its number of
      occurrences, as long as no count can pass the largest Java int. */
  lemma {:induction false} HistogramCounts(s: string)
    requires |s| <= IntMax
    ensures forall c :: c in Histogram(s) <==> c in s
    ensures forall c :: c in Histogram(s) ==> Histogram(s)[c] == multiset(s)[c]
  {
    if s != [] {
      var init, last := s[..|s| - 1], s[|s| - 1];
      HistogramCounts(init);
      assert s == init + [last];
      assert multiset(s) == multiset(init) + multiset{last};
      if last in Histogram(init) {
        assert multiset(init)[last] <= |multiset(init)|;
      }
    }
  }

  /** How often c occurs inside the lines themselves. */
  function Occurrences(lines: seq<string>, c: char): nat
  {
    if lines == [] then 0
    else Occurrences(lines[..|lines| - 1], c) + multiset(lines[|lines| - 1])[c]
  }

  /** Lines as a line reader returns them: no line terminator inside. */
  predicate NoLineBreaks(lines: seq<string>)
  {
    forall i :: 0 <= i < |lines| ==> '\n' !in lines[i] && '\r' !in lines[i]
  }

  /** The sum of w(c) * m[c] over the keys of m (the order of the keys does
      not matter, see SumOverRemove). */
  ghost function SumOver(m: map<char, int>, w: char -> int): int
    decreases m.Keys
  {
    if m == map[] then 0
    else
      var k :| k in m;
      w(k) * m[k] + SumOver(m - {k}, w)
  }

  /** Any key can be taken out of the sum first. */
  lemma {:induction false} SumOverRemove(m: map<char, int>, w: char -> int, x: char)
    requires x in m
    ensures SumOver(m, w) == w(x) * m[x] + SumOver(m - {x}, w)
    decreases m.Keys
  {
    var k :| k in m && SumOver(m, w) == w(k) * m[k] + SumOver(m - {k}, w);
    if k != x {
      SumOverRemove(m - {k}, w, x);
      SumOverRemove(m - {x}, w, k);
      assert m - {k} - {x} == m - {x} - {k};
    }
  }

  /** Counting one more character. */
  lemma HistogramAppend(s: string, c: char)
    ensures Histogram(s + [c]) == Increment(Histogram(s), c)
  {
    assert (s + [c])[..|s|] == s;
  }

  /** Counting one more c adds w(c) to the weighted sum. */
  lemma SumOverIncrement(h: map<char, int>, w: char -> int, c: char)
    requires c in h ==> 0 <= h[c] < IntMax
    ensures SumOver(Increment(h, c), w) == SumOver(h, w) + w(c)
  {
    var h' := Increment(h, c);
    SumOverRemove(h', w, c);
    if c in h {
      SumOverRemove(h, w, c);
      assert h' - {c} == h - {c};
      MulSucc(w(c), h[c]);
    } else {
      assert h' - {c} == h;
    }
  }

  lemma MulSucc(a: int, b: int)
    ensures a * (b + 1) == a * b + a
  {
  }

  /** The source's step for one character: `put(c, get(c) + 1)` in Java
      int arithmetic when c has a count, `put(c, 1)` otherwise. */
  function Increment(h: map<char, int>, c: char): map<char, int>
  {
    if c in h then h[c := Wrap32(h[c] + 1)] else h[c := 1]
  }

  /** Summing a weight over the histogram is summing it over the text. */
  lemma {:induction false} SumOverHistogram(s: string, w: char -> int)
    requires |s| <= IntMax
    ensures SumOver(Histogram(s), w) == WeightOf(s, w)
  {
    if s == [] {
      assert Histogram(s) == map[];
    } else {
      var init, c := s[..|s| - 1], s[|s| - 1];
      assert s == init + [c];
      SumOverHistogram(init, w);
      HistogramAppend(init, c);
      HistogramCounts(init);
      if c in Histogram(init) {
        assert multiset(init)[c] <= |multiset(init)|;
      }
      SumOverIncrement(Histogram(init), w, c);
    }
  }

  /** The sum of w over the characters of s. */
  function WeightOf(s: string, w: char -> int): int
  {
    if s == [] then 0 else WeightOf(s[..|s| - 1], w) + w(s[|s| - 1])
  }

  /** The counts add up to the length of the text. */
  lemma CountsAddUp(s: string)
    requires |s| <= IntMax
    ensures SumOver(Histogram(s), c => 1) == |s|
  {
    SumOverHistogram(s, c => 1);
    WeightOne(s);
  }

  lemma {:induction false} WeightOne(s: string)
    ensures WeightOf(s, c => 1) == |s|
  {
    if s != [] {
      WeightOne(s[..|s| - 1]);
    }
  }

  /** Each character other than '\n' is counted once per occurrence in the
      lines; '\n' once per line read, besides any inside the lines. */
  lemma {:induction false} TextCounts(lines: seq<string>, c: char)
    ensures multiset(Text(lines))[c] == Occurrences(lines, c) + (if c == '\n' then |lines| else 0)
  {
    if lines != [] {
      var init := lines[..|lines| - 1];
      TextCounts(init, c);
      assert multiset(Text(lines)) == multiset(Text(init)) + multiset(lines[|lines| - 1]) + multiset{'\n'};
    }
  }

  /** With lines as a line reader returns them, '\n' is counted exactly
      once per line. */
  lemma {:induction false} NewlinePerLine(lines: seq<string>)
    requires NoLineBreaks(lines)
    ensures multiset(Text(lines))['\n'] == |lines|
  {
    TextCounts(lines, '\n');
    NoNewlineInside(lines);
  }

  lemma {:induction false} NoNewlineInside(lines: seq<string>)
    requires NoLineBreaks(lines)
    ensures Occurrences(lines, '\n') == 0
  {
    if lines != [] {
      NoNewlineInside(lines[..|lines| - 1]);
      assert '\n' !in multiset(lines[|lines| - 1]);
    }
  }

  /** The source's update of one count: `put(c, get(c) + 1)` when c has a
      count, `put(c, 1)` otherwise. The key c is added if new, its count
      becomes the Java int successor of the old one (1 for a new key), and
      every other count stays as it was. */
  method Count(freq: map<char, int>, c: char) returns (r: map<char, int>)
    ensures r.Keys == freq.Keys + {c}
    ensures r[c] == if c in freq then Wrap32(freq[c] + 1) else 1
    ensures forall k :: k in freq && k != c ==> r[k] == freq[k]
  {
    if c in freq {
      var f := freq[c];
      r := freq[c := Wrap32(f + 1)];
    } else {
      r := freq[c := 1];
    }
  }

  /** countCharacterFrequencies: one pass over the lines, counting each
      character and then one '\n' after the line, with the source's Java
      int updates (HistogramCounts says what the table holds). */
  method CountCharacterFrequencies(lines: seq<string>) returns (freq: map<char, int>)
    ensures freq == Histogram(Text(lines))
  {
    freq := map[];
    ghost var done: string := [];
    var i := 0;
    while i < |lines|
      invariant 0 <= i <= |lines|
      invariant done == Text(lines[..i])
      invariant freq == Histogram(done)
    {
      var line := lines[i];
      TextStep(lines, i);
      var j := 0;
      assert done + line[..j] == done;
      while j < |line|
        invariant 0 <= j <= |line|
        invariant freq == Histogram(done + line[..j])
      {
        ghost var before := freq;
        freq := Count(freq, line[j]);
        CountIsIncrement(before, line[j], freq);
        CountStep(done, line, j);
        j := j + 1;
      }
      assert line[..j] == line;
      ghost var t := done + line;
      ghost var before := freq;
      freq := Count(freq, '\n');
      CountIsIncrement(before, '\n', freq);
      HistogramAppend(t, '\n');
      done := t + "\n";
      i := i + 1;
    }
    assert lines[..i] == lines;
  }

  /** A table updated as `Count` promises is the table's increment. */
  lemma CountIsIncrement(h: map<char, int>, c: char, r: map<char, int>)
    requires r.Keys == h.Keys + {c}
    requires r[c] == if c in h then Wrap32(h[c] + 1) else 1
    requires forall k :: k in h && k != c ==> r[k] == h[k]
    ensures r == Increment(h, c)
  {
  }

  /** Counting the next character of a line. */
  lemma CountStep(done: string, line: string, j: nat)
    requires j < |line|
    ensures Histogram(done + line[..j + 1]) == Increment(Histogram(done + line[..j]), line[j])
  {
    assert done + line[..j + 1] == (done + line[..j]) + [line[j]];
    HistogramAppend(done + line[..j], line[j]);
  }

  /** One more line of text. */
  lemma TextStep(lines: seq<string>, i: nat)
    requires i < |lines|
    ensures Text(lines[..i + 1]) == Text(lines[..i]) + lines[i] + "\n"
    ensures Text(lines[..i + 1]) == Text(lines[..i]) + (lines[i] + "\n")
  {
    assert lines[..i + 1][..i] == lines[..i];
  }
}
