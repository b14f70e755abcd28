/**
 Index construction of the n-gram engine (createIndex in
 concurrency_model/main.go): every field of every line is lower-cased,
 split into n-grams, and the line's position is appended under each n-gram.
 */
module NGramIndex {
  import opened Text
  import opened NGram
  import opened InvertedIndex

  /** The n-grams a sequence of fields contributes, field by field and in order. */
  function FieldNGrams(words: seq<String>, n: nat): (r: seq<String>)
    ensures forall g :: g in r <==> exists i :: 0 <= i < |words| && g in CreateNGrams(Lower(words[i]), n)
  {
    if |words| == 0 then []
    else
      var init := words[..|words| - 1];
      var r := FieldNGrams(init, n) + CreateNGrams(Lower(words[|words| - 1]), n);
      assert forall i :: 0 <= i < |init| ==> init[i] == words[i];
      r
  }

  /** The keys line `line` contributes, in the order the loop appends them. */
  function LineNGrams(line: String, n: nat): seq<String> {
    FieldNGrams(Fields(line), n)
  }

  function LineKeys(lines: seq<String>, n: nat): (r: seq<seq<String>>)
    ensures |r| == |lines|
    ensures forall i :: 0 <= i < |lines| ==> r[i] == LineNGrams(lines[i], n)
  {
    seq(|lines|, i requires 0 <= i < |lines| => LineNGrams(lines[i], n))
  }

  /** createIndex(lines, n): every stored position is a valid index into `lines`. */
  function CreateIndex(lines: seq<String>, n: nat): (r: Index)
    ensures WellFormed(r, |lines|)
  {
    Build(LineKeys(lines, n))
  }

  /** Line `line` produces `g`: some field of it, lower-cased, has `g` among its n-grams. */
  ghost predicate LineHasNGram(line: String, g: String, n: nat) {
    exists w :: w in Fields(line) && g in CreateNGrams(Lower(w), n)
  }

  lemma LineNGramsMembership(line: String, g: String, n: nat)
    ensures g in LineNGrams(line, n) <==> LineHasNGram(line, g, n)
  {
    var fs := Fields(line);
    if g in LineNGrams(line, n) {
      var i :| 0 <= i < |fs| && g in CreateNGrams(Lower(fs[i]), n);
      assert fs[i] in fs;
    }
    if LineHasNGram(line, g, n) {
      var w :| w in fs && g in CreateNGrams(Lower(w), n);
      var i :| 0 <= i < |fs| && fs[i] == w;
    }
  }

  /** Each list follows corpus order. */
  lemma IndexSorted(lines: seq<String>, n: nat)
    ensures forall g :: Sorted(Postings(CreateIndex(lines, n), g))
  {
    BuildSpec(LineKeys(lines, n));
  }

  lemma IndexMembershipAt(lines: seq<String>, n: nat, g: String, p: int)
    ensures p in Postings(CreateIndex(lines, n), g) <==> 0 <= p < |lines| && LineHasNGram(lines[p], g, n)
  {
    var kl := LineKeys(lines, n);
    BuildMembership(kl);
    assert p in Postings(Build(kl), g) <==> 0 <= p < |kl| && g in kl[p];
    if 0 <= p < |lines| {
      LineNGramsMembership(lines[p], g, n);
    }
  }

  /** Position `p` is listed under `g` exactly when line `p` produces `g`. */
  lemma IndexMembership(lines: seq<String>, n: nat)
    ensures forall g, p :: p in Postings(CreateIndex(lines, n), g) <==> 0 <= p < |lines| && LineHasNGram(lines[p], g, n)
  {
    forall g, p
      ensures p in Postings(CreateIndex(lines, n), g) <==> 0 <= p < |lines| && LineHasNGram(lines[p], g, n)
    {
      IndexMembershipAt(lines, n, g, p);
    }
  }

  /** Position `p` occurs under `g` once per n-gram of line `p` equal to `g`. */
  lemma IndexMultiplicity(lines: seq<String>, n: nat)
    ensures forall g, p :: 0 <= p < |lines| ==> multiset(Postings(CreateIndex(lines, n), g))[p] == Count(LineNGrams(lines[p], n), g)
    ensures forall g, p :: p >= |lines| ==> multiset(Postings(CreateIndex(lines, n), g))[p] == 0
  {
    BuildSpec(LineKeys(lines, n));
  }

  /** The keys are exactly the n-grams some line produces; each is
      lower-cased, at most `n` long, and for `n >= 1` non-empty and free of
      white space. */
  lemma IndexKeyShape(lines: seq<String>, n: nat)
    ensures forall g :: g in CreateIndex(lines, n) <==> exists p :: 0 <= p < |lines| && LineHasNGram(lines[p], g, n)
    ensures forall g :: g in CreateIndex(lines, n) ==> |g| <= n && IsLowered(g) && (n >= 1 ==> IsWord(g))
  {
    var kl := LineKeys(lines, n);
    BuildSpec(kl);
    forall g
      ensures g in CreateIndex(lines, n) <==> exists p :: 0 <= p < |lines| && LineHasNGram(lines[p], g, n)
    {
      if g in CreateIndex(lines, n) {
        var p :| 0 <= p < |kl| && g in kl[p];
        LineNGramsMembership(lines[p], g, n);
      }
      if exists p :: 0 <= p < |lines| && LineHasNGram(lines[p], g, n) {
        var p :| 0 <= p < |lines| && LineHasNGram(lines[p], g, n);
        LineNGramsMembership(lines[p], g, n);
      }
    }
    forall g | g in CreateIndex(lines, n)
      ensures |g| <= n && IsLowered(g) && (n >= 1 ==> IsWord(g))
    {
      var p :| 0 <= p < |lines| && LineHasNGram(lines[p], g, n);
      var w :| w in Fields(lines[p]) && g in CreateNGrams(Lower(w), n);
      LowerWord(w);
      NGramShape(g, Lower(w), n);
    }
  }
}
