/**
 The whole-word engine (main.go): the index maps every lower-cased field
 of every line to the positions of the lines it occurs in, one entry per
 occurrence, and a search is a single lookup of the lower-cased query
 whose positions are turned into lines in list order.
 */
module WordIndex {
  import opened Text
  import opened InvertedIndex

  /** The keys a line contributes: its fields, lower-cased, in order. */
  function LowerFields(line: String): (r: seq<String>)
    ensures |r| == |Fields(line)|
    ensures forall i :: 0 <= i < |r| ==> r[i] == Lower(Fields(line)[i])
  {
    var fs := Fields(line);
    seq(|fs|, i requires 0 <= i < |fs| => Lower(fs[i]))
  }

  function LineKeys(lines: seq<String>): (r: seq<seq<String>>)
    ensures |r| == |lines|
    ensures forall i :: 0 <= i < |lines| ==> r[i] == LowerFields(lines[i])
  {
    seq(|lines|, i requires 0 <= i < |lines| => LowerFields(lines[i]))
  }

  /** createIndex(lines): every stored position is a valid index into `lines`. */
  function CreateIndex(lines: seq<String>): (r: Index)
    ensures WellFormed(r, |lines|)
  {
    Build(LineKeys(lines))
  }

  /** Some field of `line` is `key` once lower-cased. */
  ghost predicate LineHasWord(line: String, key: String) {
    exists f :: f in Fields(line) && Lower(f) == key
  }

  lemma LowerFieldsMembership(line: String, key: String)
    ensures key in LowerFields(line) <==> LineHasWord(line, key)
  {
    var fs := Fields(line);
    if key in LowerFields(line) {
      var i :| 0 <= i < |fs| && LowerFields(line)[i] == key;
      assert fs[i] in fs;
    }
    if LineHasWord(line, key) {
      var f :| f in fs && Lower(f) == key;
      var i :| 0 <= i < |fs| && fs[i] == f;
      assert LowerFields(line)[i] == key;
    }
  }

  /** Position `p` is listed under `key` exactly when some field of line `p`
      lower-cases to `key`. */
  lemma IndexMembership(lines: seq<String>)
    ensures forall key, p :: p in Postings(CreateIndex(lines), key) <==> 0 <= p < |lines| && LineHasWord(lines[p], key)
  {
    var kl := LineKeys(lines);
    BuildMembership(kl);
    forall key, p
      ensures p in Postings(CreateIndex(lines), key) <==> 0 <= p < |lines| && LineHasWord(lines[p], key)
    {
      assert p in Postings(Build(kl), key) <==> 0 <= p < |kl| && key in kl[p];
      if 0 <= p < |lines| {
        LowerFieldsMembership(lines[p], key);
      }
    }
  }

  /** Each list is in corpus order and holds `p` once per field of line `p`
      that lower-cases to the key: repeated words are kept, not merged. */
  lemma IndexMultiplicity(lines: seq<String>)
    ensures forall key :: Sorted(Postings(CreateIndex(lines), key))
    ensures forall key, p :: 0 <= p < |lines| ==> multiset(Postings(CreateIndex(lines), key))[p] == Count(LowerFields(lines[p]), key)
    ensures forall key, p :: p >= |lines| ==> multiset(Postings(CreateIndex(lines), key))[p] == 0
  {
    BuildSpec(LineKeys(lines));
  }

  /** The keys are exactly the lower-cased fields of the corpus; none is
      empty, contains white space or has an upper-case letter. */
  lemma IndexKeyShape(lines: seq<String>)
    ensures forall key :: key in CreateIndex(lines) <==> exists p :: 0 <= p < |lines| && LineHasWord(lines[p], key)
    ensures forall key :: key in CreateIndex(lines) ==> IsWord(key) && IsLowered(key)
  {
    var kl := LineKeys(lines);
    BuildSpec(kl);
    forall key
      ensures key in CreateIndex(lines) <==> exists p :: 0 <= p < |lines| && LineHasWord(lines[p], key)
    {
      if key in CreateIndex(lines) {
        var p :| 0 <= p < |kl| && key in kl[p];
        LowerFieldsMembership(lines[p], key);
      }
      if exists p :: 0 <= p < |lines| && LineHasWord(lines[p], key) {
        var p :| 0 <= p < |lines| && LineHasWord(lines[p], key);
        LowerFieldsMembership(lines[p], key);
      }
    }
    forall key | key in CreateIndex(lines)
      ensures IsWord(key) && IsLowered(key)
    {
      var p :| 0 <= p < |lines| && LineHasWord(lines[p], key);
      var f :| f in Fields(lines[p]) && Lower(f) == key;
      LowerWord(f);
    }
  }

  /** search(query): the lines listed under the lower-cased query, in list
      order and with repetitions; nothing when the query is not a key. */
  function Search(idx: Index, lines: seq<String>, query: String): (r: seq<String>)
    requires WellFormed(idx, |lines|)
    ensures |r| == |Postings(idx, Lower(query))|
    ensures forall j :: 0 <= j < |r| ==> r[j] == lines[Postings(idx, Lower(query))[j]]
    ensures Lower(query) !in idx ==> r == []
  {
    var key := Lower(query);
    if key in idx then Materialize(lines, idx[key]) else []
  }

  /** Lower-casing the query first changes nothing. */
  lemma SearchCaseInsensitive(idx: Index, lines: seq<String>, query: String)
    requires WellFormed(idx, |lines|)
    ensures Search(idx, lines, query) == Search(idx, lines, Lower(query))
  {
    LowerFixpoint(query);
  }

  /** On an index built from `lines`, every returned line contains the query
      as a whole field (ignoring case), and every line that does is returned;
      when no line does, the result is empty. */
  lemma SearchOnIndex(lines: seq<String>, query: String)
    ensures WellFormed(CreateIndex(lines), |lines|)
    ensures forall j :: 0 <= j < |Search(CreateIndex(lines), lines, query)| ==>
      LineHasWord(Search(CreateIndex(lines), lines, query)[j], Lower(query))
    ensures forall p :: 0 <= p < |lines| && LineHasWord(lines[p], Lower(query)) ==>
      lines[p] in Search(CreateIndex(lines), lines, query)
    ensures (forall p :: 0 <= p < |lines| ==> !LineHasWord(lines[p], Lower(query))) ==>
      Search(CreateIndex(lines), lines, query) == []
  {
    var idx := CreateIndex(lines);
    var key := Lower(query);
    IndexMembership(lines);
    var r := Search(idx, lines, query);
    var ps := Postings(idx, key);
    forall j | 0 <= j < |r|
      ensures LineHasWord(r[j], key)
    {
      assert ps[j] in ps;
    }
    forall p | 0 <= p < |lines| && LineHasWord(lines[p], key)
      ensures lines[p] in r
    {
      assert p in ps;
      var j :| 0 <= j < |ps| && ps[j] == p;
      assert r[j] == lines[p];
    }
    if |r| > 0 {
      assert ps[0] in ps;
    }
  }
}
