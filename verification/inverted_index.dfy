/**
 The inverted index both engines build: a map from key to the positions of
 the corpus lines that produced it. Lines are visited in corpus order and,
 within a line, every key the line contributes has the line's position
 appended to the end of its list, a missing key starting from an empty list. The engines
 differ only in which keys a line contributes, so the fold is defined once
 here over the per-line key sequences.
 */
module InvertedIndex {
  import opened Text

  type Index = map<String, seq<nat>>

  /** The list stored under `key`; Go's lookup of an absent key yields the empty (nil) list. */
  function Postings(idx: Index, key: String): seq<nat> {
    if key in idx then idx[key] else []
  }

  /** Every stored position names a line of a corpus of `count` lines. */
  predicate WellFormed(idx: Index, count: nat) {
    forall k, j :: k in idx && 0 <= j < |idx[k]| ==> idx[k][j] < count
  }

  predicate Sorted(s: seq<nat>) {
    forall i, j :: 0 <= i <= j < |s| ==> s[i] <= s[j]
  }

  function Repeat(p: nat, c: nat): seq<nat> {
    seq(c, _ => p)
  }

  lemma {:induction false} MultisetRepeat(p: nat, c: nat)
    ensures forall q :: multiset(Repeat(p, c))[q] == if q == p then c else 0
    decreases c
  {
    if c > 0 {
      MultisetRepeat(p, c - 1);
      assert Repeat(p, c) == Repeat(p, c - 1) + [p];
    }
  }

  /** How many times `x` occurs in `s`. */
  function Count(s: seq<String>, x: String): nat {
    if |s| == 0 then 0
    else Count(s[..|s| - 1], x) + (if s[|s| - 1] == x then 1 else 0)
  }

  lemma {:induction false} CountPositive(s: seq<String>, x: String)
    ensures Count(s, x) > 0 <==> x in s
    decreases |s|
  {
    if |s| > 0 {
      CountPositive(s[..|s| - 1], x);
      assert s == s[..|s| - 1] + [s[|s| - 1]];
    }
  }

  /** Appends `pos` to the list of each key of `keys`, left to right; the
      keys afterwards are the old ones and those of `keys`. */
  function AppendAll(idx: Index, keys: seq<String>, pos: nat): (r: Index)
    ensures forall k :: k in r <==> k in idx || k in keys
    decreases |keys|
  {
    if |keys| == 0 then idx
    else
      var init := keys[..|keys| - 1];
      var key := keys[|keys| - 1];
      var m := AppendAll(idx, init, pos);
      assert keys == init + [key];
      m[key := Postings(m, key) + [pos]]
  }

  lemma RepeatSnoc(p: nat, c: nat)
    ensures Repeat(p, c) + [p] == Repeat(p, c + 1)
  {
  }

  /** Appending one position for a whole line: key `k` gains one copy of
      `pos` per occurrence of `k` in `keys`, and nothing else. */
  lemma {:induction false} AppendAllPostings(idx: Index, keys: seq<String>, pos: nat, k: String)
    ensures Postings(AppendAll(idx, keys, pos), k) == Postings(idx, k) + Repeat(pos, Count(keys, k))
    decreases |keys|
  {
    if |keys| > 0 {
      var init := keys[..|keys| - 1];
      var key := keys[|keys| - 1];
      var m := AppendAll(idx, init, pos);
      var r := m[key := Postings(m, key) + [pos]];
      assert AppendAll(idx, keys, pos) == r;
      AppendAllPostings(idx, init, pos, k);
      if k == key {
        var c := Count(init, key);
        RepeatSnoc(pos, c);
        assert Postings(r, k) == (Postings(idx, key) + Repeat(pos, c)) + [pos];
      } else {
        assert Postings(r, k) == Postings(m, k);
      }
    }
  }

  lemma AppendAllSpec(idx: Index, keys: seq<String>, pos: nat)
    ensures forall k :: Postings(AppendAll(idx, keys, pos), k) == Postings(idx, k) + Repeat(pos, Count(keys, k))
  {
    forall k
      ensures Postings(AppendAll(idx, keys, pos), k) == Postings(idx, k) + Repeat(pos, Count(keys, k))
    {
      AppendAllPostings(idx, keys, pos, k);
    }
  }

  /** The index built from the key sequences of the lines, in corpus order:
      line `i` contributes the keys `keyLists[i]`. Every position it stores
      names one of those lines. */
  function Build(keyLists: seq<seq<String>>): (r: Index)
    ensures WellFormed(r, |keyLists|)
  {
    if |keyLists| == 0 then map[]
    else
      var last := |keyLists| - 1;
      var m := Build(keyLists[..last]);
      AppendAllSpec(m, keyLists[last], last);
      var r := AppendAll(m, keyLists[last], last);
      assert forall k, j :: k in r && 0 <= j < |r[k]| ==> r[k][j] < |keyLists| by {
        forall k, j | k in r && 0 <= j < |r[k]|
          ensures r[k][j] < |keyLists|
        {
          assert r[k] == Postings(m, k) + Repeat(last, Count(keyLists[last], k));
          if j >= |Postings(m, k)| {
            assert r[k][j] == last;
          }
        }
      }
      r
  }

  /** How many times line `p` contributes `key`. */
  function Occurrences(keyLists: seq<seq<String>>, key: String, p: nat): nat {
    if p < |keyLists| then Count(keyLists[p], key) else 0
  }

  /** A key is present exactly when some line contributes it. */
  ghost predicate KeysMatch(idx: Index, keyLists: seq<seq<String>>) {
    forall k :: k in idx <==> exists i :: 0 <= i < |keyLists| && k in keyLists[i]
  }

  /** The list a built index should hold under `key`: valid positions in
      non-decreasing (corpus) order, position `p` as many times as line `p`
      contributes `key`. */
  ghost predicate PostingsMatch(s: seq<nat>, keyLists: seq<seq<String>>, key: String) {
    && Sorted(s)
    && (forall j :: 0 <= j < |s| ==> s[j] < |keyLists|)
    && (forall p :: multiset(s)[p] == Occurrences(keyLists, key, p))
  }

  /** One line's worth of appends keeps a list in shape. */
  lemma ExtendPostings(s: seq<nat>, keyLists: seq<seq<String>>, key: String)
    requires |keyLists| > 0
    requires PostingsMatch(s, keyLists[..|keyLists| - 1], key)
    ensures PostingsMatch(s + Repeat(|keyLists| - 1, Count(keyLists[|keyLists| - 1], key)), keyLists, key)
  {
    var last := |keyLists| - 1;
    var c := Count(keyLists[last], key);
    var t: seq<nat> := s + Repeat(last, c);
    MultisetRepeat(last, c);
    forall p: nat
      ensures multiset(t)[p] == Occurrences(keyLists, key, p)
    {
      assert multiset(t)[p] == multiset(s)[p] + multiset(Repeat(last, c))[p];
      if p < last {
        assert keyLists[p] == keyLists[..last][p];
      }
    }
  }

  lemma {:induction false} BuildPostings(keyLists: seq<seq<String>>)
    ensures forall k :: PostingsMatch(Postings(Build(keyLists), k), keyLists, k)
    decreases |keyLists|
  {
    if |keyLists| == 0 {
      forall k
        ensures PostingsMatch(Postings(Build(keyLists), k), keyLists, k)
      {
        assert Postings(Build(keyLists), k) == [];
      }
    } else {
      var last := |keyLists| - 1;
      var init := keyLists[..last];
      var m := Build(init);
      BuildPostings(init);
      AppendAllSpec(m, keyLists[last], last);
      forall k
        ensures PostingsMatch(Postings(Build(keyLists), k), keyLists, k)
      {
        ExtendPostings(Postings(m, k), keyLists, k);
      }
    }
  }

  lemma {:induction false} BuildKeys(keyLists: seq<seq<String>>)
    ensures KeysMatch(Build(keyLists), keyLists)
    decreases |keyLists|
  {
    if |keyLists| > 0 {
      var last := |keyLists| - 1;
      var init := keyLists[..last];
      var m := Build(init);
      var r := Build(keyLists);
      BuildKeys(init);
      AppendAllSpec(m, keyLists[last], last);
      forall k
        ensures k in r <==> exists i :: 0 <= i < |keyLists| && k in keyLists[i]
      {
        if k in r && k !in keyLists[last] {
          assert k in m;
          var i :| 0 <= i < |init| && k in init[i];
          assert keyLists[i] == init[i];
        }
        if exists i :: 0 <= i < |keyLists| && k in keyLists[i] {
          var i :| 0 <= i < |keyLists| && k in keyLists[i];
          if i < last {
            assert init[i] == keyLists[i];
          }
        }
      }
    }
  }

  /** What the fold builds, key by key: each list holds valid positions in
      non-decreasing (corpus) order, position `p` as many times as line `p`
      contributes the key, and the keys are exactly those some line contributes. */
  lemma BuildSpec(keyLists: seq<seq<String>>)
    ensures WellFormed(Build(keyLists), |keyLists|)
    ensures forall k :: Sorted(Postings(Build(keyLists), k))
    ensures forall k, p :: multiset(Postings(Build(keyLists), k))[p] == Occurrences(keyLists, k, p)
    ensures KeysMatch(Build(keyLists), keyLists)
  {
    BuildPostings(keyLists);
    BuildKeys(keyLists);
    var r := Build(keyLists);
    forall k | k in r
      ensures forall j :: 0 <= j < |r[k]| ==> r[k][j] < |keyLists|
    {
      assert PostingsMatch(Postings(r, k), keyLists, k);
    }
    forall k
      ensures Sorted(Postings(r, k))
    {
      assert PostingsMatch(Postings(r, k), keyLists, k);
    }
    forall k, p
      ensures multiset(Postings(r, k))[p] == Occurrences(keyLists, k, p)
    {
      assert PostingsMatch(Postings(r, k), keyLists, k);
    }
  }

  /** Postings of a built index, read position by position: `p` is listed
      under `key` exactly when line `p` contributes `key`. */
  lemma BuildMembership(keyLists: seq<seq<String>>)
    ensures forall k, p :: p in Postings(Build(keyLists), k) <==> 0 <= p < |keyLists| && k in keyLists[p]
  {
    BuildSpec(keyLists);
    forall k, p
      ensures p in Postings(Build(keyLists), k) <==> 0 <= p < |keyLists| && k in keyLists[p]
    {
      assert p in Postings(Build(keyLists), k) <==> multiset(Postings(Build(keyLists), k))[p] > 0;
      if 0 <= p < |keyLists| {
        CountPositive(keyLists[p], k);
      }
    }
  }

  /** Rebuilds the lines of the corpus named by `positions`, in that order. */
  function Materialize(lines: seq<String>, positions: seq<nat>): (r: seq<String>)
    requires forall j :: 0 <= j < |positions| ==> positions[j] < |lines|
    ensures |r| == |positions|
    ensures forall j :: 0 <= j < |r| ==> r[j] == lines[positions[j]]
  {
    if |positions| == 0 then []
    else Materialize(lines, positions[..|positions| - 1]) + [lines[positions[|positions| - 1]]]
  }
}
