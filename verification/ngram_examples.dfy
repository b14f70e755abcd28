/**
 A worked example of the n-gram engine: the corpus
 "the quick brown fox" / "jumps over the lazy dog" indexed with n = 5.
 */
module NGramExamples {
  import opened Text
  import opened NGram
  import opened InvertedIndex
  import opened NGramIndex
  import opened NGramSearch

  const Corpus: seq<String> := ["the quick brown fox", "jumps over the lazy dog"]

  lemma JoinTail0()
    ensures Unwords(["brown", "fox"]) == "brown fox"
  {
    var ws: seq<String> := ["brown", "fox"];
    assert Unwords(ws[1..]) == "fox";
  }

  lemma JoinLine0()
    ensures Unwords(["the", "quick", "brown", "fox"]) == Corpus[0]
  {
    var ws: seq<String> := ["the", "quick", "brown", "fox"];
    JoinTail0();
    assert ws[2..] == ["brown", "fox"];
    assert Unwords(ws[1..]) == "quick" + [' '] + "brown fox";
  }

  lemma WordsOfLine0()
    ensures Unwords(["the", "quick", "brown", "fox"]) == Corpus[0]
    ensures forall i :: 0 <= i < 4 ==> IsWord(["the", "quick", "brown", "fox"][i])
  {
    assert IsWord("the");
    assert IsWord("quick");
    assert IsWord("brown");
    assert IsWord("fox");
    JoinLine0();
  }

  lemma JoinTail1()
    ensures Unwords(["the", "lazy", "dog"]) == "the lazy dog"
  {
    var ws: seq<String> := ["the", "lazy", "dog"];
    assert Unwords(ws[2..]) == "dog";
    assert Unwords(ws[1..]) == "lazy" + [' '] + "dog";
  }

  lemma JoinLine1()
    ensures Unwords(["jumps", "over", "the", "lazy", "dog"]) == Corpus[1]
  {
    var ws: seq<String> := ["jumps", "over", "the", "lazy", "dog"];
    JoinTail1();
    assert ws[2..] == ["the", "lazy", "dog"];
    assert Unwords(ws[1..]) == "over" + [' '] + "the lazy dog";
  }

  lemma WordsOfLine1()
    ensures Unwords(["jumps", "over", "the", "lazy", "dog"]) == Corpus[1]
    ensures forall i :: 0 <= i < 5 ==> IsWord(["jumps", "over", "the", "lazy", "dog"][i])
  {
    assert IsWord("jumps");
    assert IsWord("over");
    assert IsWord("the");
    assert IsWord("lazy");
    assert IsWord("dog");
    JoinLine1();
  }

  /** A two-line corpus with the words of the example, however spaced. */
  ghost predicate ExampleCorpus(lines: seq<String>) {
    && |lines| == 2
    && Fields(lines[0]) == ["the", "quick", "brown", "fox"]
    && Fields(lines[1]) == ["jumps", "over", "the", "lazy", "dog"]
  }

  lemma CorpusFields()
    ensures ExampleCorpus(Corpus)
  {
    WordsOfLine0();
    WordsOfLine1();
    FieldsUnwords(["the", "quick", "brown", "fox"]);
    FieldsUnwords(["jumps", "over", "the", "lazy", "dog"]);
  }

  /** For a lower-case query of length `n` or less, a field matches exactly
      when the query is one of the field's n-grams. */
  lemma LoweredQueryMatch(w: String, query: String, n: nat)
    requires IsLowered(query) && |query| <= n
    ensures WordMatches(w, query, n) <==> IsNGramOf(query, Lower(w), n)
  {
    LowerFixpoint(query);
    if |query| < n {
      assert CreateNGrams(query, n) == [query];
    }
    NGramMembership(query, Lower(w), n);
  }

  /** "quick" is not a piece of "jumps": the only window of length 5 is the
      whole word, which starts with another letter. */
  lemma QuickNotInJumps()
    ensures !IsSubstring("quick", "jumps")
  {
    forall i
      ensures !OccursAt("quick", "jumps", i)
    {
      if 0 <= i && i + 5 <= 5 {
        assert "jumps"[i..i + 5] == "jumps";
      }
    }
  }

  /** "quick" is a whole 5-letter field of line 0 and an n-gram of no field
      of line 1, so only line 0 is found. */
  lemma QuickMissesWord(w: String)
    requires w in ["jumps", "over", "the", "lazy", "dog"]
    ensures !WordMatches(w, "quick", 5)
  {
    var q: String := "quick";
    assert IsLowered(q);
    LoweredQueryMatch(w, q, 5);
    LoweredWord(w);
    if w == "jumps" {
      QuickNotInJumps();
    } else {
      assert |w| < 5;
    }
  }

  /** The search finds exactly the lines `hits` when those are the matching lines. */
  lemma FoundExactly(lines: seq<String>, query: String, n: nat, hits: set<nat>)
    requires forall p :: p in hits ==> p < |lines|
    requires forall p :: 0 <= p < |lines| ==> (LineMatches(lines[p], query, n) <==> p in hits)
    ensures MatchPositions(CreateIndex(lines, n), query, n) == hits
  {
    SearchOnIndex(lines, query, n);
  }

  lemma QuickFindsFirstLine(lines: seq<String>)
    requires ExampleCorpus(lines)
    ensures MatchPositions(CreateIndex(lines, 5), "quick", 5) == {0}
  {
    var q: String := "quick";
    assert q in Fields(lines[0]);
    LoweredWord(q);
    assert WordMatches(q, q, 5);
    forall w | w in Fields(lines[1])
      ensures !WordMatches(w, q, 5)
    {
      QuickMissesWord(w);
    }
    FoundExactly(lines, q, 5, {0});
  }

  /** Every field of the corpus is already lower case. */
  lemma LoweredWord(w: String)
    requires w in ["the", "quick", "brown", "fox", "jumps", "over", "lazy", "dog"]
    ensures Lower(w) == w
  {
    assert IsLowered(w);
    LowerFixpoint(w);
  }

  lemma CorpusLowered(lines: seq<String>)
    requires ExampleCorpus(lines)
    ensures forall p, w :: 0 <= p < |lines| && w in Fields(lines[p]) ==> Lower(w) == w
  {
    forall p, w | 0 <= p < |lines| && w in Fields(lines[p])
      ensures Lower(w) == w
    {
      LoweredWord(w);
    }
  }

  /** "jum" is shorter than 5, so only the whole query is looked up, and no
      field is "jum": nothing is found although "jumps" starts with it. */
  lemma ShortPrefixFindsNothing(lines: seq<String>)
    requires ExampleCorpus(lines)
    ensures MatchPositions(CreateIndex(lines, 5), "jum", 5) == {}
  {
    var q: String := "jum";
    CorpusLowered(lines);
    assert IsLowered(q);
    LowerFixpoint(q);
    assert q !in Fields(lines[0]) && q !in Fields(lines[1]);
    forall p, w | 0 <= p < |lines| && w in Fields(lines[p])
      ensures Lower(w) != q
    {
      assert Lower(w) == w;
    }
    ShortQuery(lines, q, 5);
    assert forall p :: p !in MatchPositions(CreateIndex(lines, 5), q, 5);
  }

  /** A short query finds exactly the lines `hits` when those are the lines
      with a field equal to it (ignoring case). */
  lemma ShortFoundExactly(lines: seq<String>, query: String, n: nat, hits: set<nat>)
    requires |query| < n
    requires forall p :: p in hits ==> p < |lines|
    requires forall p :: 0 <= p < |lines| ==>
      ((exists w :: w in Fields(lines[p]) && Lower(w) == Lower(query)) <==> p in hits)
    ensures MatchPositions(CreateIndex(lines, n), query, n) == hits
  {
    ShortQuery(lines, query, n);
  }

  /** "over" is shorter than 5, but it is also a whole field shorter than 5,
      which the index stores under itself: line 1 is found. */
  lemma ShortWordFindsItsLine(lines: seq<String>)
    requires ExampleCorpus(lines)
    ensures MatchPositions(CreateIndex(lines, 5), "over", 5) == {1}
  {
    var q: String := "over";
    CorpusLowered(lines);
    assert IsLowered(q);
    LowerFixpoint(q);
    assert q !in Fields(lines[0]) && q in Fields(lines[1]);
    forall w | w in Fields(lines[0])
      ensures Lower(w) != q
    {
      assert Lower(w) == w;
    }
    assert Lower(Fields(lines[1])[1]) == q;
    ShortFoundExactly(lines, q, 5, {1});
  }

  /** The three queries on the example corpus itself. */
  lemma QuickOnCorpus()
    ensures MatchPositions(CreateIndex(Corpus, 5), "quick", 5) == {0}
  {
    CorpusFields();
    QuickFindsFirstLine(Corpus);
  }

  lemma JumOnCorpus()
    ensures MatchPositions(CreateIndex(Corpus, 5), "jum", 5) == {}
  {
    CorpusFields();
    ShortPrefixFindsNothing(Corpus);
  }

  lemma OverOnCorpus()
    ensures MatchPositions(CreateIndex(Corpus, 5), "over", 5) == {1}
  {
    CorpusFields();
    ShortWordFindsItsLine(Corpus);
  }
}
