/** The abstract word -> count table shared by both list implementations.

    A table is an ordered sequence of entries, front to back in the order the
    words were first added. `Observe` is the effect of one `add_word` call:
    increment the first entry with that word, or append a new entry with
    count 1. Everything the two implementations promise is stated against
    these functions.
 */
module WordTable {

  datatype Option<T> = None | Some(value: T)

  /** One record of the table: a word and how many times it was added. */
  datatype Entry = Entry(word: string, count: nat)

  /** The words of a table, in list order. */
  function Words(s: seq<Entry>): seq<string>
  {
    seq(|s|, i requires 0 <= i < |s| => s[i].word)
  }

  /** At most one entry per word. */
  ghost predicate DistinctWords(s: seq<Entry>)
  {
    forall i, j :: 0 <= i < j < |s| ==> s[i].word != s[j].word
  }

  /** Position of the first entry whose word is `w`, the linear search both
      `find_word`s perform. */
  function FirstIndex(s: seq<Entry>, w: string): (r: Option<nat>)
    ensures r.None? <==> forall i :: 0 <= i < |s| ==> s[i].word != w
    ensures r.Some? ==> r.value < |s| && s[r.value].word == w
    ensures r.Some? ==> forall j :: 0 <= j < r.value ==> s[j].word != w
  {
    if |s| == 0 then None
    else if s[0].word == w then Some(0)
    else match FirstIndex(s[1..], w)
      case None => None
      case Some(i) => Some(i + 1)
  }

  /** The count the table records for `w`; 0 when `w` is absent. */
  function CountOf(s: seq<Entry>, w: string): nat
  {
    match FirstIndex(s, w)
    case None => 0
    case Some(i) => s[i].count
  }

  /** Sum of all counts: the number of words added so far. */
  function Total(s: seq<Entry>): nat
  {
    if |s| == 0 then 0 else Total(s[..|s| - 1]) + s[|s| - 1].count
  }

  /** One `add_word`: increment the first matching entry, or append
      `(w, 1)` at the tail. */
  function Observe(s: seq<Entry>, w: string): seq<Entry>
  {
    match FirstIndex(s, w)
    case Some(i) => s[i := Entry(w, s[i].count + 1)]
    case None => s + [Entry(w, 1)]
  }

  /** `add_word` applied to each token of `ts` in turn, starting from `s`. */
  function ObserveAll(s: seq<Entry>, ts: seq<string>): seq<Entry>
  {
    if |ts| == 0 then s else Observe(ObserveAll(s, ts[..|ts| - 1]), ts[|ts| - 1])
  }

  /** `ws` followed by the tokens of `ts` not seen before, in first-occurrence
      order: the independent reference for the order of a table's words. */
  function AppendUnseen(ws: seq<string>, ts: seq<string>): seq<string>
  {
    if |ts| == 0 then ws
    else
      var p := AppendUnseen(ws, ts[..|ts| - 1]);
      if ts[|ts| - 1] in p then p else p + [ts[|ts| - 1]]
  }

  // ---------------------------------------------------------------------
  // Lemmas about one add_word

  /** `FirstIndex` depends only on the words of the table. */
  lemma FirstIndexByWords(s: seq<Entry>, t: seq<Entry>, v: string)
    requires |s| == |t|
    requires forall k :: 0 <= k < |s| ==> s[k].word == t[k].word
    ensures FirstIndex(s, v) == FirstIndex(t, v)
  {
    var a, b := FirstIndex(s, v), FirstIndex(t, v);
    if a.Some? && b.Some? {
      assert t[a.value].word == v && s[b.value].word == v;
    }
  }

  /** Appending an entry does not change where an earlier word is found. */
  lemma {:induction false} FirstIndexAppend(s: seq<Entry>, e: Entry, v: string)
    ensures FirstIndex(s, v).Some? ==> FirstIndex(s + [e], v) == FirstIndex(s, v)
    ensures FirstIndex(s, v).None? && e.word == v ==> FirstIndex(s + [e], v) == Some(|s|)
    ensures FirstIndex(s, v).None? && e.word != v ==> FirstIndex(s + [e], v).None?
    decreases |s|
  {
    if |s| > 0 {
      assert (s + [e])[0] == s[0];
      assert (s + [e])[1..] == s[1..] + [e];
      FirstIndexAppend(s[1..], e, v);
    }
  }

  /** The first index is `i` when `s[i]` holds `w` and no earlier entry does. */
  lemma FirstIndexIs(s: seq<Entry>, w: string, i: nat)
    requires i < |s| && s[i].word == w
    requires forall j :: 0 <= j < i ==> s[j].word != w
    ensures FirstIndex(s, w) == Some(i)
  {
  }

  /** In a table with distinct words, the count recorded for an entry's
      word is that entry's count. */
  lemma CountOfAt(s: seq<Entry>, i: nat)
    requires DistinctWords(s) && i < |s|
    ensures CountOf(s, s[i].word) == s[i].count
  {
    assert FirstIndex(s, s[i].word).Some?;
  }

  /** A word is among a table's words exactly when `FirstIndex` finds it. */
  lemma InWordsFound(s: seq<Entry>, w: string)
    ensures w in Words(s) <==> FirstIndex(s, w).Some?
  {
    if FirstIndex(s, w).Some? {
      assert Words(s)[FirstIndex(s, w).value] == w;
    }
  }

  lemma ObserveCountsFound(s: seq<Entry>, w: string, v: string, i: nat)
    requires FirstIndex(s, w) == Some(i)
    ensures CountOf(Observe(s, w), v) == CountOf(s, v) + (if v == w then 1 else 0)
  {
    var r := s[i := Entry(w, s[i].count + 1)];
    assert Observe(s, w) == r;
    FirstIndexByWords(s, r, v);
    var q := FirstIndex(s, v);
    if q.Some? {
      assert q.value == i <==> v == w;
      assert CountOf(r, v) == r[q.value].count;
    }
  }

  /** Counts after one add_word: the added word's count grows by one and
      every other word's count is as before. */
  lemma ObserveCounts(s: seq<Entry>, w: string, v: string)
    ensures CountOf(Observe(s, w), v) == CountOf(s, v) + (if v == w then 1 else 0)
  {
    match FirstIndex(s, w)
    case Some(i) =>
      ObserveCountsFound(s, w, v, i);
    case None =>
      var t := s + [Entry(w, 1)];
      FirstIndexAppend(s, Entry(w, 1), v);
      if FirstIndex(s, v).Some? {
        assert t[FirstIndex(s, v).value] == s[FirstIndex(s, v).value];
      }
  }

  /** The words of the table after one add_word: unchanged, in the same
      order, when the word was present; otherwise the word is appended at
      the tail. */
  lemma ObserveWords(s: seq<Entry>, w: string)
    ensures Words(Observe(s, w)) == if w in Words(s) then Words(s) else Words(s) + [w]
  {
    InWordsFound(s, w);
    match FirstIndex(s, w)
    case Some(i) =>
    case None =>
      assert Words(s + [Entry(w, 1)]) == Words(s) + [w];
  }

  /** An add_word on the empty table gives the one-entry table `[(w, 1)]`. */
  lemma ObserveEmpty(w: string)
    ensures Observe([], w) == [Entry(w, 1)]
  {
  }

  /** One add_word leaves every entry of another word as it was; a present
      word keeps the length, an absent one adds `(w, 1)` at the tail. */
  lemma ObserveShape(s: seq<Entry>, w: string)
    ensures w in Words(s) ==> |Observe(s, w)| == |s|
    ensures w !in Words(s) ==> Observe(s, w) == s + [Entry(w, 1)]
    ensures forall i :: 0 <= i < |s| && s[i].word != w ==> Observe(s, w)[i] == s[i]
  {
    InWordsFound(s, w);
  }

  /** On a table with one entry per word, the entry of the added word is the
      one add_word increments. */
  lemma ObserveBumps(s: seq<Entry>, w: string)
    requires DistinctWords(s)
    ensures forall i :: 0 <= i < |s| && s[i].word == w ==>
              Observe(s, w)[i] == Entry(w, s[i].count + 1)
  {
    match FirstIndex(s, w)
    case Some(k) =>
      assert forall i :: 0 <= i < |s| && s[i].word == w ==> i == k;
    case None =>
  }

  /** One add_word keeps the words pairwise distinct. */
  lemma ObserveDistinct(s: seq<Entry>, w: string)
    requires DistinctWords(s)
    ensures DistinctWords(Observe(s, w))
  {
    ObserveWords(s, w);
    var r := Observe(s, w);
    forall i, j | 0 <= i < j < |r|
      ensures r[i].word != r[j].word
    {
      assert Words(r)[i] == r[i].word && Words(r)[j] == r[j].word;
      if j < |s| {
        assert Words(s)[i] == s[i].word && Words(s)[j] == s[j].word;
      } else {
        assert Words(s)[i] == s[i].word;
      }
    }
  }

  lemma {:induction false} TotalUpdate(s: seq<Entry>, i: nat, e: Entry)
    requires i < |s|
    ensures Total(s[i := e]) + s[i].count == Total(s) + e.count
    decreases |s|
  {
    var n := |s|;
    var t := s[i := e];
    if i == n - 1 {
      assert t[..n - 1] == s[..n - 1];
    } else {
      assert t[..n - 1] == s[..n - 1][i := e];
      TotalUpdate(s[..n - 1], i, e);
    }
  }

  /** Each add_word adds exactly one to the total of all counts. */
  lemma ObserveTotal(s: seq<Entry>, w: string)
    ensures Total(Observe(s, w)) == Total(s) + 1
  {
    match FirstIndex(s, w)
    case Some(i) =>
      TotalUpdate(s, i, Entry(w, s[i].count + 1));
    case None =>
      assert (s + [Entry(w, 1)])[..|s|] == s;
  }

  // ---------------------------------------------------------------------
  // Lemmas about a whole token sequence

  lemma {:induction false} AppendUnseenMembers(ws: seq<string>, ts: seq<string>, w: string)
    ensures w in AppendUnseen(ws, ts) <==> w in ws || w in ts
    decreases |ts|
  {
    if |ts| > 0 {
      var n := |ts|;
      assert ts == ts[..n - 1] + [ts[n - 1]];
      AppendUnseenMembers(ws, ts[..n - 1], w);
    }
  }

  /** Position of the first occurrence of `w` among the tokens `ts`. */
  function FirstPos(ts: seq<string>, w: string): (r: nat)
    requires w in ts
    ensures r < |ts| && ts[r] == w
    ensures forall k :: 0 <= k < r ==> ts[k] != w
  {
    if ts[0] == w then 0 else 1 + FirstPos(ts[1..], w)
  }

  /** A token already seen keeps its first position when more tokens follow. */
  lemma FirstPosAppend(ts: seq<string>, t: string, w: string)
    requires w in ts
    ensures FirstPos(ts + [t], w) == FirstPos(ts, w)
  {
    var q := FirstPos(ts, w);
    assert (ts + [t])[q] == w;
  }

  /** Position by position, `AppendUnseen([], ts)` lists the words of `ts`
      in strictly increasing order of their first occurrence in `ts`. */
  lemma {:induction false} AppendUnseenOrder(ts: seq<string>)
    ensures forall k :: 0 <= k < |AppendUnseen([], ts)| ==> AppendUnseen([], ts)[k] in ts
    ensures forall i, j :: 0 <= i < j < |AppendUnseen([], ts)| ==>
              FirstPos(ts, AppendUnseen([], ts)[i]) < FirstPos(ts, AppendUnseen([], ts)[j])
    decreases |ts|
  {
    if |ts| > 0 {
      var n := |ts|;
      var u, t := ts[..n - 1], ts[n - 1];
      assert ts == u + [t];
      var p := AppendUnseen([], u);
      AppendUnseenOrder(u);
      forall k | 0 <= k < |p|
        ensures FirstPos(ts, p[k]) == FirstPos(u, p[k]) < |u|
      {
        FirstPosAppend(u, t, p[k]);
      }
      if t !in p {
        AppendUnseenMembers([], u, t);
        assert FirstPos(ts, t) == |u|;
        var r := p + [t];
        assert forall k :: 0 <= k < |p| ==> r[k] == p[k];
      }
    }
  }

  /** Counting from an empty table: an entry that comes before another one
      holds a word whose first occurrence in `ts` comes first. */
  lemma FirstOccurrenceOrder(ts: seq<string>)
    ensures forall k :: 0 <= k < |ObserveAll([], ts)| ==> ObserveAll([], ts)[k].word in ts
    ensures forall i, j :: 0 <= i < j < |ObserveAll([], ts)| ==>
              FirstPos(ts, ObserveAll([], ts)[i].word) < FirstPos(ts, ObserveAll([], ts)[j].word)
  {
    var r := ObserveAll([], ts);
    CountFromEmpty(ts);
    AppendUnseenOrder(ts);
    assert forall k :: 0 <= k < |r| ==> Words(r)[k] == r[k].word;
  }

  /** Folding add_word over `ts` keeps words distinct, adds `|ts|` to the
      total, and appends new words in first-occurrence order. */
  lemma {:induction false} ObserveAllShape(s: seq<Entry>, ts: seq<string>)
    requires DistinctWords(s)
    ensures DistinctWords(ObserveAll(s, ts))
    ensures Total(ObserveAll(s, ts)) == Total(s) + |ts|
    ensures Words(ObserveAll(s, ts)) == AppendUnseen(Words(s), ts)
    decreases |ts|
  {
    if |ts| > 0 {
      var n := |ts|;
      var p := ObserveAll(s, ts[..n - 1]);
      ObserveAllShape(s, ts[..n - 1]);
      ObserveDistinct(p, ts[n - 1]);
      ObserveTotal(p, ts[n - 1]);
      ObserveWords(p, ts[n - 1]);
    }
  }

  /** Folding add_word over `ts`: each word's count grows by its number of
      occurrences in `ts`. */
  lemma {:induction false} ObserveAllCounts(s: seq<Entry>, ts: seq<string>, w: string)
    ensures CountOf(ObserveAll(s, ts), w) == CountOf(s, w) + multiset(ts)[w]
    decreases |ts|
  {
    if |ts| > 0 {
      var n := |ts|;
      ObserveAllCounts(s, ts[..n - 1], w);
      ObserveCounts(ObserveAll(s, ts[..n - 1]), ts[n - 1], w);
      assert ts == ts[..n - 1] + [ts[n - 1]];
    }
  }

  /** Adding the tokens of `a` and then those of `b` is adding `a + b`. */
  lemma {:induction false} ObserveAllConcat(s: seq<Entry>, a: seq<string>, b: seq<string>)
    ensures ObserveAll(s, a + b) == ObserveAll(ObserveAll(s, a), b)
    decreases |b|
  {
    if |b| == 0 {
      assert a + b == a;
    } else {
      assert (a + b)[..|a + b| - 1] == a + b[..|b| - 1];
      ObserveAllConcat(s, a, b[..|b| - 1]);
    }
  }

  /** Counting a token stream from an empty table gives one entry per
      distinct token, in first-occurrence order, whose count is that
      token's number of occurrences. */
  lemma CountFromEmpty(ts: seq<string>)
    ensures DistinctWords(ObserveAll([], ts))
    ensures forall w :: w in Words(ObserveAll([], ts)) <==> w in ts
    ensures forall i :: 0 <= i < |ObserveAll([], ts)| ==>
              ObserveAll([], ts)[i].count == multiset(ts)[ObserveAll([], ts)[i].word]
    ensures Words(ObserveAll([], ts)) == AppendUnseen([], ts)
    ensures Total(ObserveAll([], ts)) == |ts|
  {
    var r := ObserveAll([], ts);
    ObserveAllShape([], ts);
    assert Words([]) == [];
    forall w
      ensures w in Words(r) <==> w in ts
    {
      AppendUnseenMembers([], ts, w);
    }
    forall i | 0 <= i < |r|
      ensures r[i].count == multiset(ts)[r[i].word]
    {
      CountOfAt(r, i);
      ObserveAllCounts([], ts, r[i].word);
    }
  }

  /** The tokens of all worker streams, one stream after another. */
  function Flatten(streams: seq<seq<string>>): seq<string>
  {
    if |streams| == 0 then [] else Flatten(streams[..|streams| - 1]) + streams[|streams| - 1]
  }

  /** Occurrences of `w` summed over all worker streams. */
  function Occurrences(streams: seq<seq<string>>, w: string): nat
  {
    if |streams| == 0 then 0
    else Occurrences(streams[..|streams| - 1], w) + multiset(streams[|streams| - 1])[w]
  }

  lemma {:induction false} FlattenOccurrences(streams: seq<seq<string>>, w: string)
    ensures multiset(Flatten(streams))[w] == Occurrences(streams, w)
    decreases |streams|
  {
    if |streams| > 0 {
      FlattenOccurrences(streams[..|streams| - 1], w);
    }
  }

  /** With each add_word atomic, the workers' calls reach the table in some
      interleaving `ts` of their streams. Whatever the interleaving, each
      word's final count is its total number of occurrences across all
      workers, and the table holds exactly the words that occur. */
  lemma InterleavedCounts(streams: seq<seq<string>>, ts: seq<string>)
    requires multiset(ts) == multiset(Flatten(streams))
    ensures DistinctWords(ObserveAll([], ts))
    ensures forall w :: CountOf(ObserveAll([], ts), w) == Occurrences(streams, w)
    ensures forall w :: w in Words(ObserveAll([], ts)) <==> Occurrences(streams, w) > 0
  {
    CountFromEmpty(ts);
    forall w
      ensures CountOf(ObserveAll([], ts), w) == Occurrences(streams, w)
      ensures w in Words(ObserveAll([], ts)) <==> Occurrences(streams, w) > 0
    {
      ObserveAllCounts([], ts, w);
      FlattenOccurrences(streams, w);
      assert w in ts <==> multiset(ts)[w] > 0;
    }
  }
}
