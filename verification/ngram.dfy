/**
 Splitting a word into character n-grams (createNGrams in
 concurrency_model/main.go): every contiguous piece of length `n`, left to
 right, or the word itself when it is shorter than `n`.
 */
module NGram {
  import opened Text

  function Min(a: int, b: int): int {
    if a < b then a else b
  }

  /** The first `count` windows of length `n` of `word`, in order: what the
      loop over start offsets has collected after `count` rounds. */
  function Windows(word: String, n: nat, count: nat): (r: seq<String>)
    requires count + n <= |word| + 1
    ensures |r| == count
    ensures forall j :: 0 <= j < count ==> r[j] == word[j..j + n]
  {
    if count == 0 then []
    else Windows(word, n, count - 1) + [word[count - 1..count - 1 + n]]
  }

  /** createNGrams. A negative `n` makes the Go slice expression panic, so `n`
      is a natural number; `n == 0` yields `|word| + 1` empty strings, as in Go. */
  function CreateNGrams(word: String, n: nat): (r: seq<String>)
    ensures |r| >= 1
    ensures |word| < n ==> r == [word]
    ensures |word| >= n ==> |r| == |word| - n + 1
    ensures |word| >= n ==> forall j :: 0 <= j < |r| ==> r[j] == word[j..j + n]
    ensures forall j :: 0 <= j < |r| ==> |r[j]| == Min(|word|, n)
    ensures n == |word| ==> r == [word]
  {
    if |word| < n then [word]
    else
      var r := Windows(word, n, |word| - n + 1);
      assert n == |word| ==> r[0] == word;
      r
  }

  /** What an n-gram of a word is, stated without the loop: the word itself
      when it is shorter than `n`, otherwise any piece of it of length `n`. */
  ghost predicate IsNGramOf(g: String, word: String, n: nat) {
    if |word| < n then g == word else |g| == n && IsSubstring(g, word)
  }

  /** The n-grams produced are exactly the n-grams of the word: nothing is
      missed and nothing else is produced. */
  lemma NGramMembership(g: String, word: String, n: nat)
    ensures g in CreateNGrams(word, n) <==> IsNGramOf(g, word, n)
  {
    var r := CreateNGrams(word, n);
    if |word| >= n {
      if g in r {
        var j :| 0 <= j < |r| && r[j] == g;
        assert OccursAt(g, word, j);
      }
      if |g| == n && IsSubstring(g, word) {
        var i :| OccursAt(g, word, i);
        assert r[i] == g;
      }
    }
  }

  /** An n-gram of a lower-cased word is lower-cased, and for `n >= 1` an
      n-gram of a field is itself a non-empty, white-space-free string. */
  lemma NGramShape(g: String, word: String, n: nat)
    requires g in CreateNGrams(word, n)
    ensures |g| <= n
    ensures IsLowered(word) ==> IsLowered(g)
    ensures IsWord(word) && n >= 1 ==> IsWord(g)
  {
    var r := CreateNGrams(word, n);
    var j :| 0 <= j < |r| && r[j] == g;
    if |word| >= n {
      assert g == word[j..j + n];
      assert forall i :: 0 <= i < |g| ==> g[i] == word[j + i];
    }
  }
}
