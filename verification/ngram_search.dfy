/**
 Query evaluation of the n-gram engine (search in concurrency_model/main.go).
 The query is lower-cased and split into n-grams; every n-gram is looked up
 (one goroutine each in the source, all sending into one channel), then the
 whole lower-cased query is looked up as well, and the union of the listed
 positions is turned into lines. The goroutines only ever add positions to
 one set, so they are modelled as a sequential union of lookups, and
 LookupOrderIrrelevant shows that no interleaving can change that set.
 */
module NGramSearch {
  import opened Text
  import opened NGram
  import opened InvertedIndex
  import opened NGramIndex

  /** `p` is listed under at least one of `grams`. */
  ghost predicate ListedUnder(idx: Index, grams: seq<String>, p: nat) {
    exists g :: g in grams && p in Postings(idx, g)
  }

  /** The positions listed under any of `grams`; a key that is absent adds nothing. */
  function Lookup(idx: Index, grams: seq<String>): (r: set<nat>)
    ensures forall p :: p in r <==> ListedUnder(idx, grams, p)
  {
    if |grams| == 0 then {}
    else
      var init := grams[..|grams| - 1];
      var ps := Postings(idx, grams[|grams| - 1]);
      assert grams == init + [grams[|grams| - 1]];
      Lookup(idx, init) + (set j | 0 <= j < |ps| :: ps[j])
  }

  /** The merged set depends only on which keys are looked up, not on the
      order in which they are looked up or on repetitions among them. */
  lemma LookupOrderIrrelevant(idx: Index, a: seq<String>, b: seq<String>)
    requires forall g :: g in a <==> g in b
    ensures Lookup(idx, a) == Lookup(idx, b)
  {
    forall p | p in Lookup(idx, a)
      ensures p in Lookup(idx, b)
    {
      var g :| g in a && p in Postings(idx, g);
      assert g in b;
    }
    forall p | p in Lookup(idx, b)
      ensures p in Lookup(idx, a)
    {
      var g :| g in b && p in Postings(idx, g);
      assert g in a;
    }
  }

  /** Looking up a single key gives exactly the positions listed under it. */
  lemma LookupOne(idx: Index, key: String)
    ensures forall p :: p in Lookup(idx, [key]) <==> p in Postings(idx, key)
  {
    forall p
      ensures ListedUnder(idx, [key], p) <==> p in Postings(idx, key)
    {
      if p in Postings(idx, key) {
        assert key in [key];
      }
    }
  }

  /** The set of matching positions (lines 86-124): the query's n-grams are
      looked up, then the n-grams of the query taken with its own length,
      which are just the query. A position matches exactly when it is listed
      under the whole lower-cased query or under one of its n-grams; with
      none of these keys present the result is empty. */
  function MatchPositions(idx: Index, query: String, n: nat): (r: set<nat>)
    ensures forall p :: p in r <==>
      p in Postings(idx, Lower(query)) || ListedUnder(idx, CreateNGrams(Lower(query), n), p)
    ensures (Lower(query) !in idx && forall g :: g in CreateNGrams(Lower(query), n) ==> g !in idx) ==> r == {}
  {
    var q := Lower(query);
    assert CreateNGrams(q, |q|) == [q];
    LookupOne(idx, q);
    Lookup(idx, CreateNGrams(q, n)) + Lookup(idx, CreateNGrams(q, |q|))
  }

  /** Every matching position names a line when the index is well formed. */
  lemma MatchPositionsBounded(idx: Index, query: String, n: nat, count: nat)
    requires WellFormed(idx, count)
    ensures forall p :: p in MatchPositions(idx, query, n) ==> p < count
  {
    forall p | p in MatchPositions(idx, query, n)
      ensures p < count
    {
      var g :| (g == Lower(query) || g in CreateNGrams(Lower(query), n)) && p in Postings(idx, g);
      assert g in idx;
      var j :| 0 <= j < |idx[g]| && idx[g][j] == p;
    }
  }

  /** Lines 126-129: one line per position of the set, in whatever order the
      set is traversed, with the positions in that order returned as `order`. */
  method LinesOf(lines: seq<String>, positions: set<nat>) returns (result: seq<String>, order: seq<nat>)
    requires forall p :: p in positions ==> p < |lines|
    ensures forall p :: p in order <==> p in positions
    ensures forall i, j :: 0 <= i < j < |order| ==> order[i] != order[j]
    ensures |result| == |order|
    ensures forall j :: 0 <= j < |order| ==> order[j] < |lines| && result[j] == lines[order[j]]
  {
    var remaining := positions;
    result, order := [], [];
    while remaining != {}
      invariant remaining <= positions
      invariant forall p :: p in order <==> p in positions && p !in remaining
      invariant forall i, j :: 0 <= i < j < |order| ==> order[i] != order[j]
      invariant |result| == |order|
      invariant forall j :: 0 <= j < |order| ==> order[j] < |lines| && result[j] == lines[order[j]]
      decreases remaining
    {
      var p :| p in remaining;
      result := result + [lines[p]];
      order := order + [p];
      remaining := remaining - {p};
    }
  }

  /** search(query, n): the lines at the matching positions, each position
      once, in an unspecified order (the source ranges over a Go map). The
      positions are returned alongside the lines as `order`. */
  method Search(idx: Index, lines: seq<String>, query: String, n: nat) returns (result: seq<String>, order: seq<nat>)
    requires WellFormed(idx, |lines|)
    ensures forall p :: p in order <==> p in MatchPositions(idx, query, n)
    ensures forall i, j :: 0 <= i < j < |order| ==> order[i] != order[j]
    ensures |result| == |order|
    ensures forall j :: 0 <= j < |order| ==> order[j] < |lines| && result[j] == lines[order[j]]
  {
    var occurrences := MatchPositions(idx, query, n);
    MatchPositionsBounded(idx, query, n, |lines|);
    result, order := LinesOf(lines, occurrences);
  }

  /** Lower-casing the query first changes nothing. */
  lemma SearchCaseInsensitive(idx: Index, query: String, n: nat)
    ensures MatchPositions(idx, query, n) == MatchPositions(idx, Lower(query), n)
  {
    LowerFixpoint(query);
  }

  /** A field `w` matches the query when one of the query's n-grams, or the
      whole lower-cased query, is an n-gram of the lower-cased field. */
  ghost predicate WordMatches(w: String, query: String, n: nat) {
    || Lower(query) in CreateNGrams(Lower(w), n)
    || exists g :: g in CreateNGrams(Lower(query), n) && g in CreateNGrams(Lower(w), n)
  }

  ghost predicate LineMatches(line: String, query: String, n: nat) {
    exists w :: w in Fields(line) && WordMatches(w, query, n)
  }

  lemma SearchOnIndexAt(lines: seq<String>, query: String, n: nat, p: nat)
    ensures p in MatchPositions(CreateIndex(lines, n), query, n) <==> p < |lines| && LineMatches(lines[p], query, n)
  {
    var idx := CreateIndex(lines, n);
    var q := Lower(query);
    if p in MatchPositions(idx, query, n) {
      var g :| (g == q || g in CreateNGrams(q, n)) && p in Postings(idx, g);
      IndexMembershipAt(lines, n, g, p);
      var w :| w in Fields(lines[p]) && g in CreateNGrams(Lower(w), n);
      assert WordMatches(w, query, n);
    }
    if p < |lines| && LineMatches(lines[p], query, n) {
      var w :| w in Fields(lines[p]) && WordMatches(w, query, n);
      if q in CreateNGrams(Lower(w), n) {
        IndexMembershipAt(lines, n, q, p);
      } else {
        var g :| g in CreateNGrams(q, n) && g in CreateNGrams(Lower(w), n);
        IndexMembershipAt(lines, n, g, p);
        assert ListedUnder(idx, CreateNGrams(q, n), p);
      }
    }
  }

  /** Searching an index built from `lines` finds exactly the lines with a
      matching field: no line is missed and no other line is returned. */
  lemma SearchOnIndex(lines: seq<String>, query: String, n: nat)
    ensures forall p :: p in MatchPositions(CreateIndex(lines, n), query, n) <==> 0 <= p < |lines| && LineMatches(lines[p], query, n)
  {
    forall p: nat
      ensures p in MatchPositions(CreateIndex(lines, n), query, n) <==> p < |lines| && LineMatches(lines[p], query, n)
    {
      SearchOnIndexAt(lines, query, n, p);
    }
  }

  /** A query equal (ignoring case) to a field of a line finds that line,
      whatever its length relative to `n`. */
  lemma ExactWordMatch(lines: seq<String>, query: String, n: nat, p: nat, w: String)
    requires p < |lines| && w in Fields(lines[p]) && Lower(w) == Lower(query)
    ensures p in MatchPositions(CreateIndex(lines, n), query, n)
  {
    SearchOnIndex(lines, query, n);
    var g := CreateNGrams(Lower(query), n)[0];
    assert g in CreateNGrams(Lower(w), n);
    assert WordMatches(w, query, n);
  }

  /** A query of exactly `n` characters that occurs inside a field finds
      that field's line. */
  lemma SubstringMatch(lines: seq<String>, query: String, n: nat, p: nat, w: String)
    requires p < |lines| && w in Fields(lines[p])
    requires |query| == n && IsSubstring(Lower(query), Lower(w))
    ensures p in MatchPositions(CreateIndex(lines, n), query, n)
  {
    SearchOnIndex(lines, query, n);
    var i :| OccursAt(Lower(query), Lower(w), i);
    NGramMembership(Lower(query), Lower(w), n);
    assert WordMatches(w, query, n);
  }

  /** A query shorter than `n` is only ever looked up whole, so it finds a
      line exactly when it equals (ignoring case) a whole field of that line;
      a short query that is merely part of a longer field finds nothing. */
  lemma ShortQuery(lines: seq<String>, query: String, n: nat)
    requires |query| < n
    ensures forall p :: p in MatchPositions(CreateIndex(lines, n), query, n) <==>
      0 <= p < |lines| && exists w :: w in Fields(lines[p]) && Lower(w) == Lower(query)
  {
    SearchOnIndex(lines, query, n);
    var q := Lower(query);
    assert CreateNGrams(q, n) == [q];
    forall w
      ensures WordMatches(w, query, n) <==> Lower(w) == q
    {
      NGramMembership(q, Lower(w), n);
    }
  }
}
