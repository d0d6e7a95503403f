/** The word count list of hw-list: a list of (word, count) records kept in
    a shared list, with a lock around each add. Taking the lock makes each
    `AddWord` one atomic step, so the model is sequential. A pointer to a
    record is modelled as the record's position in the list.
 */
module PintosWordCount {
  import opened WordTable

  /** The comparator the sort really uses: by count only. */
  predicate LessList(a: Entry, b: Entry)
  {
    a.count < b.count
  }

  /** `LessList` is a strict order that looks at counts and nothing else. */
  lemma LessListStrictOrder()
    ensures forall a :: !LessList(a, a)
    ensures forall a, b :: LessList(a, b) ==> !LessList(b, a)
    ensures forall a, b, c :: LessList(a, b) && LessList(b, c) ==> LessList(a, c)
    ensures forall a: Entry, b: Entry, a': Entry, b': Entry :: a.count == a'.count && b.count == b'.count ==>
              LessList(a, b) == LessList(a', b')
  {
  }

  /** Counts are non-decreasing front to back. */
  ghost predicate SortedByCount(s: seq<Entry>)
  {
    forall i, j :: 0 <= i < j < |s| ==> s[i].count <= s[j].count
  }

  /** The entries of `s` whose count is `c`, in their order in `s`. */
  function WithCount(s: seq<Entry>, c: nat): seq<Entry>
  {
    if |s| == 0 then []
    else if s[0].count == c then [s[0]] + WithCount(s[1..], c)
    else WithCount(s[1..], c)
  }

  /** Insert `x` in front of the first entry that is not `LessList` than it. */
  function InsertByCount(x: Entry, s: seq<Entry>): seq<Entry>
  {
    if |s| == 0 || !LessList(s[0], x) then [x] + s
    else [s[0]] + InsertByCount(x, s[1..])
  }

  /** A stable sort of the list under `LessList`. */
  function SortByCount(s: seq<Entry>): seq<Entry>
  {
    if |s| == 0 then [] else InsertByCount(s[0], SortByCount(s[1..]))
  }

  lemma {:induction false} InsertPermutation(x: Entry, s: seq<Entry>)
    ensures multiset(InsertByCount(x, s)) == multiset{x} + multiset(s)
    decreases |s|
  {
    if |s| > 0 && LessList(s[0], x) {
      InsertPermutation(x, s[1..]);
      assert s == [s[0]] + s[1..];
    }
  }

  lemma {:induction false} InsertSorted(x: Entry, s: seq<Entry>)
    requires SortedByCount(s)
    ensures SortedByCount(InsertByCount(x, s))
    decreases |s|
  {
    if |s| > 0 && LessList(s[0], x) {
      var t := InsertByCount(x, s[1..]);
      InsertSorted(x, s[1..]);
      InsertPermutation(x, s[1..]);
      forall k | 0 <= k < |t|
        ensures s[0].count <= t[k].count
      {
        assert t[k] in multiset(t);
        if t[k] != x {
          assert t[k] in multiset(s[1..]);
          var m :| 0 <= m < |s[1..]| && s[1..][m] == t[k];
          assert s[m + 1] == t[k];
        }
      }
    }
  }

  lemma {:induction false} InsertStable(x: Entry, s: seq<Entry>, c: nat)
    ensures WithCount(InsertByCount(x, s), c) ==
              if x.count == c then [x] + WithCount(s, c) else WithCount(s, c)
    decreases |s|
  {
    if |s| == 0 || !LessList(s[0], x) {
      assert ([x] + s)[1..] == s;
    } else {
      InsertStable(x, s[1..], c);
      var t := [s[0]] + InsertByCount(x, s[1..]);
      assert t[1..] == InsertByCount(x, s[1..]);
    }
  }

  /** The sort yields a permutation of its input, with counts
      non-decreasing, and keeps the relative order of entries with equal
      counts. */
  lemma {:induction false} SortByCountSpec(s: seq<Entry>)
    ensures multiset(SortByCount(s)) == multiset(s)
    ensures |SortByCount(s)| == |s|
    ensures SortedByCount(SortByCount(s))
    ensures forall c :: WithCount(SortByCount(s), c) == WithCount(s, c)
    decreases |s|
  {
    if |s| > 0 {
      SortByCountSpec(s[1..]);
      InsertPermutation(s[0], SortByCount(s[1..]));
      InsertSorted(s[0], SortByCount(s[1..]));
      assert s == [s[0]] + s[1..];
      forall c
        ensures WithCount(SortByCount(s), c) == WithCount(s, c)
      {
        InsertStable(s[0], SortByCount(s[1..]), c);
      }
    }
    assert |multiset(SortByCount(s))| == |multiset(s)|;
  }

  lemma SameWords(s: seq<Entry>, t: seq<Entry>, i: nat) returns (j: nat)
    requires multiset(s) == multiset(t) && i < |s|
    ensures j < |t| && t[j] == s[i]
  {
    assert s[i] in multiset(t);
    j :| 0 <= j < |t| && t[j] == s[i];
  }

  lemma DistinctCons(a: Entry, t: seq<Entry>)
    ensures DistinctWords([a] + t) <==>
              (forall e :: e in t ==> e.word != a.word) && DistinctWords(t)
  {
    var s := [a] + t;
    assert s[1..] == t;
    if DistinctWords(s) {
      forall e | e in t ensures e.word != a.word {
        var k :| 0 <= k < |t| && t[k] == e;
        assert s[0] == a && s[k + 1] == e;
      }
    }
  }

  lemma {:induction false} InsertDistinct(x: Entry, s: seq<Entry>)
    requires DistinctWords(s)
    requires forall e :: e in s ==> e.word != x.word
    ensures DistinctWords(InsertByCount(x, s))
    decreases |s|
  {
    if |s| == 0 || !LessList(s[0], x) {
      DistinctCons(x, s);
    } else {
      DistinctCons(s[0], s[1..]);
      assert s == [s[0]] + s[1..];
      InsertDistinct(x, s[1..]);
      InsertPermutation(x, s[1..]);
      var t := InsertByCount(x, s[1..]);
      forall e | e in t ensures e.word != s[0].word {
        assert e in multiset(t);
      }
      DistinctCons(s[0], t);
    }
  }

  /** Sorting a table with one entry per word keeps one entry per word. */
  lemma {:induction false} SortDistinct(s: seq<Entry>)
    requires DistinctWords(s)
    ensures DistinctWords(SortByCount(s))
    decreases |s|
  {
    if |s| > 0 {
      assert s == [s[0]] + s[1..];
      DistinctCons(s[0], s[1..]);
      SortDistinct(s[1..]);
      SortByCountSpec(s[1..]);
      var r := SortByCount(s[1..]);
      forall e | e in r ensures e.word != s[0].word {
        assert e in multiset(r);
      }
      InsertDistinct(s[0], r);
    }
  }

  /** Sorting a table with one entry per word records the same count for
      every word. */
  lemma SortKeepsCounts(s: seq<Entry>, w: string)
    requires DistinctWords(s)
    ensures CountOf(SortByCount(s), w) == CountOf(s, w)
  {
    var t := SortByCount(s);
    SortByCountSpec(s);
    SortDistinct(s);
    match FirstIndex(s, w)
    case Some(i) =>
      var j := SameWords(s, t, i);
      CountOfAt(s, i);
      CountOfAt(t, j);
    case None =>
      if FirstIndex(t, w).Some? {
        var i := SameWords(t, s, FirstIndex(t, w).value);
      }
  }

  /** A `word_count_list_t`: the shared list of entries. */
  class WordCountList {
    var lst: seq<Entry>

    /** A list object whose entries are empty, as `init_words` leaves it. */
    constructor ()
      ensures lst == []
    {
      lst := [];
    }

    /** `init_words`: the list becomes empty. */
    method InitWords()
      modifies this
      ensures lst == []
    {
      lst := [];
    }

    /** `len_words`: the number of entries. */
    method LenWords() returns (n: nat)
      ensures n == |lst|
      ensures lst == [] ==> n == 0
    {
      n := |lst|;
    }

    /** `find_word`: the position of the first entry whose word equals
        `word`, or None when there is none. */
    method FindWord(word: string) returns (r: Option<nat>)
      ensures r.None? <==> forall i :: 0 <= i < |lst| ==> lst[i].word != word
      ensures r.Some? ==> r.value < |lst| && lst[r.value].word == word
      ensures r.Some? ==> forall j :: 0 <= j < r.value ==> lst[j].word != word
    {
      var e := 0;
      while e < |lst|
        invariant 0 <= e <= |lst|
        invariant forall j :: 0 <= j < e ==> lst[j].word != word
      {
        if lst[e].word != word {
          e := e + 1;
          continue;
        }
        return Some(e);
      }
      return None;
    }

    /** `add_word`, done atomically under the list's lock: increment the
        entry found by `FindWord`, or push `(word, 1)` at the back. Returns
        the position of the entry it incremented or created. */
    method AddWord(word: string) returns (k: nat)
      modifies this
      ensures lst == Observe(old(lst), word)
      ensures k < |lst| && lst[k].word == word
      ensures lst[k].count == CountOf(old(lst), word) + 1
      ensures FirstIndex(old(lst), word).None? ==>
                k == |old(lst)| && lst == old(lst) + [Entry(word, 1)]
      ensures FirstIndex(old(lst), word).Some? ==>
                |lst| == |old(lst)| && lst == old(lst)[k := Entry(word, old(lst)[k].count + 1)]
      ensures DistinctWords(old(lst)) ==> DistinctWords(lst)
      ensures Total(lst) == Total(old(lst)) + 1
    {
      if DistinctWords(lst) {
        ObserveDistinct(lst, word);
      }
      ObserveTotal(lst, word);
      var found := FindWord(word);
      if found.Some? {
        k := found.value;
        lst := lst[k := Entry(word, lst[k].count + 1)];
      } else {
        k := |lst|;
        lst := lst + [Entry(word, 1)];
      }
    }

    /** The effect of one worker's `count_words`: `AddWord` once per token of
        its stream, in order. */
    method CountWords(tokens: seq<string>)
      modifies this
      ensures lst == ObserveAll(old(lst), tokens)
    {
      var i := 0;
      while i < |tokens|
        invariant 0 <= i <= |tokens|
        invariant lst == ObserveAll(old(lst), tokens[..i])
      {
        assert tokens[..i + 1][..i] == tokens[..i];
        var _ := AddWord(tokens[i]);
        i := i + 1;
      }
      assert tokens[..i] == tokens;
    }

    /** `wordcount_sort`: sorts the list in place by `LessList`. The
        comparator `less` the caller passes is not used. */
    method WordcountSort(less: (Entry, Entry) -> bool)
      modifies this
      ensures lst == SortByCount(old(lst))
      ensures multiset(lst) == multiset(old(lst)) && |lst| == |old(lst)|
      ensures SortedByCount(lst)
      ensures forall c :: WithCount(lst, c) == WithCount(old(lst), c)
      ensures DistinctWords(old(lst)) ==> DistinctWords(lst)
      ensures forall w :: DistinctWords(old(lst)) ==> CountOf(lst, w) == CountOf(old(lst), w)
    {
      SortByCountSpec(lst);
      if DistinctWords(lst) {
        SortDistinct(lst);
        forall w ensures CountOf(SortByCount(lst), w) == CountOf(lst, w) {
          SortKeepsCounts(lst, w);
        }
      }
      lst := SortByCount(lst);
    }
  }
}

/** Counting "the cat sat" and then "the dog sat" and sorting the result. */
module PintosWordCountScenario {
  import opened WordTable
  import opened PintosWordCount

  lemma FirstFile()
    ensures ObserveAll([], ["the", "cat", "sat"]) ==
              [Entry("the", 1), Entry("cat", 1), Entry("sat", 1)]
  {
    var ts := ["the", "cat", "sat"];
    var t := [Entry("the", 1)];
    assert ObserveAll([], ts[..1]) == t by { assert ts[..1][..0] == []; }
    t := t + [Entry("cat", 1)];
    assert ObserveAll([], ts[..2]) == t by { assert ts[..2][..1] == ts[..1]; }
    t := t + [Entry("sat", 1)];
    assert ObserveAll([], ts) == t by { assert ts[..3] == ts && ts[..3][..2] == ts[..2]; }
  }

  lemma SecondFile()
    ensures ObserveAll([Entry("the", 1), Entry("cat", 1), Entry("sat", 1)], ["the", "dog", "sat"]) ==
              [Entry("the", 2), Entry("cat", 1), Entry("sat", 2), Entry("dog", 1)]
  {
    var ts := ["the", "dog", "sat"];
    var t := [Entry("the", 1), Entry("cat", 1), Entry("sat", 1)];
    var t0 := t;
    assert FirstIndex(t, "the") == Some(0);
    t := [Entry("the", 2), Entry("cat", 1), Entry("sat", 1)];
    assert ObserveAll(t0, ts[..1]) == t by { assert ts[..1][..0] == []; }
    t := t + [Entry("dog", 1)];
    assert ObserveAll(t0, ts[..2]) == t by { assert ts[..2][..1] == ts[..1]; }
    assert FirstIndex(t[2..], "sat") == Some(0);
    assert FirstIndex(t[1..], "sat") == Some(1) by { assert t[1..][1..] == t[2..]; }
    assert FirstIndex(t, "sat") == Some(2) by { assert t[1..][0].word == "cat"; }
    t := [Entry("the", 2), Entry("cat", 1), Entry("sat", 2), Entry("dog", 1)];
    assert ObserveAll(t0, ts) == t by { assert ts[..3] == ts && ts[..3][..2] == ts[..2]; }
  }

  /** Counting the two files one after the other lists the words in
      first-occurrence order with their counts. */
  lemma TwoFilesTable()
    ensures ObserveAll([], ["the", "cat", "sat"] + ["the", "dog", "sat"]) ==
              [Entry("the", 2), Entry("cat", 1), Entry("sat", 2), Entry("dog", 1)]
  {
    ObserveAllConcat([], ["the", "cat", "sat"], ["the", "dog", "sat"]);
    FirstFile();
    SecondFile();
  }

  /** Sorting that table orders by count and keeps equal counts in
      first-occurrence order. */
  lemma TwoFilesSorted()
    ensures SortByCount([Entry("the", 2), Entry("cat", 1), Entry("sat", 2), Entry("dog", 1)]) ==
              [Entry("cat", 1), Entry("dog", 1), Entry("the", 2), Entry("sat", 2)]
  {
    var t := [Entry("the", 2), Entry("cat", 1), Entry("sat", 2), Entry("dog", 1)];
    var dog, sat, cat, the := Entry("dog", 1), Entry("sat", 2), Entry("cat", 1), Entry("the", 2);
    assert SortByCount(t[3..]) == [dog] by { assert t[3..][1..] == []; }
    assert InsertByCount(sat, [dog]) == [dog, sat] by { assert [dog][1..] == []; }
    assert SortByCount(t[2..]) == [dog, sat] by { assert t[2..][1..] == t[3..]; }
    assert SortByCount(t[1..]) == [cat, dog, sat] by { assert t[1..][1..] == t[2..]; }
    assert InsertByCount(the, [sat]) == [the, sat];
    assert InsertByCount(the, [dog, sat]) == [dog, the, sat] by { assert [dog, sat][1..] == [sat]; }
    assert InsertByCount(the, [cat, dog, sat]) == [cat, dog, the, sat] by {
      assert [cat, dog, sat][1..] == [dog, sat];
    }
  }

  /** The two files counted by one worker each, in turn, into a fresh list
      object, and the list sorted afterwards. */
  method TwoFilesRun() returns (counted: seq<Entry>, sorted: seq<Entry>)
    ensures counted == [Entry("the", 2), Entry("cat", 1), Entry("sat", 2), Entry("dog", 1)]
    ensures sorted == [Entry("cat", 1), Entry("dog", 1), Entry("the", 2), Entry("sat", 2)]
  {
    var wclist := new WordCountList();
    wclist.InitWords();
    wclist.CountWords(["the", "cat", "sat"]);
    FirstFile();
    wclist.CountWords(["the", "dog", "sat"]);
    SecondFile();
    counted := wclist.lst;
    wclist.WordcountSort(LessList);
    TwoFilesSorted();
    sorted := wclist.lst;
  }
}
