/** The word count list of hw-intro: a singly linked list of heap nodes.
    Read-only operations take the head node; `AddWord` takes the cell that
    holds the head pointer and relinks the list in place.

    A chain is described by the ghost sequence of its nodes, front to back;
    `Snapshot` reads the (word, count) records off those nodes.
 */
module LinkedWordCount {
  import opened WordTable

  /** One `WordCount` node. The word is never changed after creation. */
  class WordCount {
    const word: string
    var count: nat
    var next: WordCount?

    /** A freshly allocated node holding `word` with count 1 and no
        successor. */
    constructor (word: string)
      ensures this.word == word && count == 1 && next == null
    {
      this.word := word;
      count := 1;
      next := null;
    }
  }

  /** `nodes` is the null-terminated list that starts at `head`: each node's
      `next` is the node after it, the last one's is null, and no node
      occurs twice. */
  ghost predicate Chain(head: WordCount?, nodes: seq<WordCount>)
    reads nodes
  {
    && (if |nodes| == 0 then head == null else head == nodes[0])
    && (forall i :: 0 <= i < |nodes| - 1 ==> nodes[i].next == nodes[i + 1])
    && (|nodes| > 0 ==> nodes[|nodes| - 1].next == null)
    && (forall i, j :: 0 <= i < j < |nodes| ==> nodes[i] != nodes[j])
  }

  /** The table the nodes hold, front to back. */
  ghost function Snapshot(nodes: seq<WordCount>): seq<Entry>
    reads nodes
  {
    seq(|nodes|, i reads nodes requires 0 <= i < |nodes| => Entry(nodes[i].word, nodes[i].count))
  }

  lemma SnapshotAt(nodes: seq<WordCount>, i: nat)
    requires i < |nodes|
    ensures |Snapshot(nodes)| == |nodes|
    ensures Snapshot(nodes)[i] == Entry(nodes[i].word, nodes[i].count)
  {
  }

  /** The caller's `WordCount *` variable that `add_word` receives by
      reference: it holds the head of the list. */
  class WordList {
    var head: WordCount?
    ghost var nodes: seq<WordCount>

    ghost predicate Valid()
      reads this, nodes
    {
      Chain(head, nodes)
    }

    ghost function Contents(): seq<Entry>
      reads this, nodes
    {
      Snapshot(nodes)
    }

    /** A list variable set to NULL: the empty list. */
    constructor ()
      ensures Valid() && nodes == [] && Contents() == []
    {
      head := null;
      nodes := [];
    }
  }

  /** `len_words`: the number of nodes reachable from the head, 0 for a
      NULL head. */
  method LenWords(wchead: WordCount?, ghost nodes: seq<WordCount>) returns (len: nat)
    requires Chain(wchead, nodes)
    ensures len == |nodes| == |Snapshot(nodes)|
    ensures wchead == null <==> len == 0
  {
    len := 0;
    var ptr := wchead;
    while ptr != null
      invariant len <= |nodes|
      invariant ptr == if len < |nodes| then nodes[len] else null
      decreases |nodes| - len
    {
      len := len + 1;
      ptr := ptr.next;
    }
  }

  /** `find_word`: the first node whose word equals `word`, or NULL when no
      node matches. */
  method FindWord(wchead: WordCount?, word: string, ghost nodes: seq<WordCount>)
    returns (wc: WordCount?)
    requires Chain(wchead, nodes)
    ensures wc == null <==> forall i :: 0 <= i < |nodes| ==> nodes[i].word != word
    ensures wc != null ==> exists k :: 0 <= k < |nodes| && wc == nodes[k] && wc.word == word &&
                                       forall j :: 0 <= j < k ==> nodes[j].word != word
    ensures wc != null ==> wc.count == CountOf(Snapshot(nodes), word)
  {
    wc := null;
    var ptr := wchead;
    ghost var i := 0;
    while ptr != null
      invariant i <= |nodes|
      invariant ptr == if i < |nodes| then nodes[i] else null
      invariant forall j :: 0 <= j < i ==> nodes[j].word != word
      decreases |nodes| - i
    {
      if ptr.word != word {
        ptr := ptr.next;
        i := i + 1;
        continue;
      }
      wc := ptr;
      break;
    }
    ghost var s := Snapshot(nodes);
    assert forall j :: 0 <= j < |nodes| ==> s[j].word == nodes[j].word;
    if wc != null {
      assert s[i].word == word;
      assert FirstIndex(s, word) == Some(i);
    }
  }

  /** `last->next = new node (word, 1)`: links a new node after the tail
      `last` of a non-empty list. */
  method LinkAfter(wclist: WordList, last: WordCount, w: string)
    requires wclist.Valid() && |wclist.nodes| > 0 && last == wclist.nodes[|wclist.nodes| - 1]
    modifies wclist, last
    ensures wclist.Valid() && wclist.head == old(wclist.head)
    ensures |wclist.nodes| == |old(wclist.nodes)| + 1
    ensures wclist.nodes[..|old(wclist.nodes)|] == old(wclist.nodes)
    ensures fresh(wclist.nodes[|old(wclist.nodes)|])
    ensures wclist.Contents() == old(wclist.Contents()) + [Entry(w, 1)]
  {
    ghost var ns := wclist.nodes;
    ghost var s := Snapshot(ns);
    var n := new WordCount(w);
    last.next := n;
    wclist.nodes := ns + [n];
    assert (ns + [n])[..|ns|] == ns;
    assert Snapshot(ns + [n]) == s + [Entry(w, 1)];
  }

  /** `*wclist = new node (word, 1)`: an empty list gets a one-node list
      whose `next` is NULL. */
  method LinkHead(wclist: WordList, w: string)
    requires wclist.Valid() && wclist.head == null
    modifies wclist
    ensures wclist.Valid() && |wclist.nodes| == 1 && fresh(wclist.nodes[0])
    ensures wclist.Contents() == [Entry(w, 1)]
  {
    var n := new WordCount(w);
    wclist.head := n;
    wclist.nodes := [n];
    assert Snapshot([n]) == [Entry(w, 1)];
  }

  /** `ptr->count++` on the node at position `i` of a list holding `s`. */
  method Bump(wclist: WordList, ptr: WordCount, ghost i: nat, ghost s: seq<Entry>)
    requires wclist.Valid() && i < |wclist.nodes| && ptr == wclist.nodes[i]
    requires wclist.Contents() == s
    modifies ptr
    ensures wclist.Valid()
    ensures wclist.Contents() == s[i := Entry(s[i].word, s[i].count + 1)]
  {
    SnapshotAt(wclist.nodes, i);
    ptr.count := ptr.count + 1;
    assert wclist.Contents() == s[i := Entry(ptr.word, ptr.count)];
  }

  /** `add_word`: with a NULL list reference or a NULL word it returns 1
      and changes nothing. Otherwise it returns 0 and adds the word as
      `AddTo` does. */
  method AddWord(wclist: WordList?, word: Option<string>) returns (rc: int)
    requires wclist != null ==> wclist.Valid()
    modifies wclist, if wclist == null then [] else wclist.nodes
    ensures rc == if wclist == null || word.None? then 1 else 0
    ensures wclist != null ==> wclist.Valid()
    ensures wclist != null && word.None? ==>
              wclist.head == old(wclist.head) && wclist.nodes == old(wclist.nodes) &&
              wclist.Contents() == old(wclist.Contents())
    ensures wclist != null && word.Some? ==>
              wclist.Contents() == Observe(old(wclist.Contents()), word.value)
    ensures wclist != null ==>
              |old(wclist.nodes)| <= |wclist.nodes| <= |old(wclist.nodes)| + 1 &&
              wclist.nodes[..|old(wclist.nodes)|] == old(wclist.nodes)
    ensures wclist != null && |wclist.nodes| > |old(wclist.nodes)| ==>
              fresh(wclist.nodes[|wclist.nodes| - 1])
  {
    if wclist == null || word.None? {
      return 1;
    }
    AddTo(wclist, word.value);
    return 0;
  }

  /** The body of `add_word` past its NULL checks: an empty list gets the
      single node `(w, 1)`; otherwise `WalkAndAdd` finishes the job. */
  method AddTo(wclist: WordList, w: string)
    requires wclist.Valid()
    modifies wclist, wclist.nodes
    ensures wclist.Valid()
    ensures wclist.Contents() == Observe(old(wclist.Contents()), w)
    ensures |old(wclist.nodes)| <= |wclist.nodes| <= |old(wclist.nodes)| + 1
    ensures wclist.nodes[..|old(wclist.nodes)|] == old(wclist.nodes)
    ensures |wclist.nodes| > |old(wclist.nodes)| ==> fresh(wclist.nodes[|wclist.nodes| - 1])
  {
    var head := wclist.head;
    if head == null {
      LinkHead(wclist, w);
      return;
    }
    WalkAndAdd(wclist, w);
  }

  /** The walk over a non-empty list: increments the first node holding
      `w`, or links a new node `(w, 1)` after the last node. */
  method WalkAndAdd(wclist: WordList, w: string)
    requires wclist.Valid() && wclist.head != null
    modifies wclist, wclist.nodes
    ensures wclist.Valid()
    ensures wclist.Contents() == Observe(old(wclist.Contents()), w)
    ensures |old(wclist.nodes)| <= |wclist.nodes| <= |old(wclist.nodes)| + 1
    ensures wclist.nodes[..|old(wclist.nodes)|] == old(wclist.nodes)
    ensures |wclist.nodes| > |old(wclist.nodes)| ==> fresh(wclist.nodes[|wclist.nodes| - 1])
  {
    ghost var ns := wclist.nodes;
    ghost var s := wclist.Contents();
    var find := false;
    var last: WordCount? := null;
    var ptr := wclist.head;
    ghost var i := 0;
    while ptr != null
      invariant i <= |ns|
      invariant ptr == if i < |ns| then ns[i] else null
      invariant i > 0 ==> last == ns[i - 1]
      invariant forall j :: 0 <= j < i ==> s[j].word != w
      invariant !find && unchanged(wclist) && unchanged(ns)
      decreases |ns| - i
    {
      last := ptr;
      SnapshotAt(ns, i);
      if ptr.word != w {
        ptr := ptr.next;
        i := i + 1;
        continue;
      }
      Bump(wclist, ptr, i, s);
      find := true;
      break;
    }
    if find {
      FirstIndexIs(s, w, i);
      assert Observe(s, w) == s[i := Entry(w, s[i].count + 1)];
    } else {
      assert FirstIndex(s, w) == None;
      assert Observe(s, w) == s + [Entry(w, 1)];
      LinkAfter(wclist, last, w);
    }
  }
}
