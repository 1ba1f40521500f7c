/**
 The length-bucketed word tally of word_tally.c.

 The tally is an array of word lists ("buckets") indexed by word length:
 bucket i holds the (word, count) entries for the words of i characters.
 The C code keeps each bucket as a singly linked list; here a bucket is a
 sequence whose first element is the head of the list, so the list
 library's lookup is `Find`, its prepend is `[e] + bucket`, and the
 in-place `value++` on a node is an update of one element.
 */
module WordTally {
  import opened Wrappers

  /** One list node: a word (the key) and the number of times it was seen. */
  datatype Entry = Entry(key: string, value: int)

  /** The list of entries for one word length, head first. */
  type Bucket = seq<Entry>

  // ---------------------------------------------------------------------------
  // Lookup by key and the counts it defines
  // ---------------------------------------------------------------------------

  /** The position of the first node of `bucket` whose key is `w`, if any. */
  function Find(bucket: Bucket, w: string): (r: Option<nat>)
    ensures r.Some? ==> r.value < |bucket| && bucket[r.value].key == w
    ensures r.Some? ==> forall j :: 0 <= j < r.value ==> bucket[j].key != w
    ensures r.None? <==> forall j :: 0 <= j < |bucket| ==> bucket[j].key != w
  {
    if bucket == [] then None
    else if bucket[0].key == w then Some(0)
    else match Find(bucket[1..], w)
      case None => None
      case Some(i) => Some(i + 1)
  }

  /** The count recorded for `w` in one bucket, 0 when it has no node for `w`. */
  function CountIn(bucket: Bucket, w: string): (c: int)
  {
    match Find(bucket, w)
    case None => 0
    case Some(i) => bucket[i].value
  }

  /** The count the tally records for `w`: looked up in the bucket for its length. */
  function Count(b: seq<Bucket>, w: string): (c: int)
  {
    if |w| < |b| then CountIn(b[|w|], w) else 0
  }

  /** Some bucket of the tally holds a node whose key is `w`. */
  ghost predicate Present(b: seq<Bucket>, w: string)
  {
    exists i, j :: 0 <= i < |b| && 0 <= j < |b[i]| && b[i][j].key == w
  }

  /** The tally's invariant for the bucket of length `len`: every word has that
      length, every count is at least 1, and no word occurs twice. */
  ghost predicate BucketWellFormed(bucket: Bucket, len: nat)
  {
    (forall j :: 0 <= j < |bucket| ==> |bucket[j].key| == len && bucket[j].value >= 1) &&
    (forall j, k :: 0 <= j < k < |bucket| ==> bucket[j].key != bucket[k].key)
  }

  ghost predicate WellFormed(b: seq<Bucket>)
  {
    forall i :: 0 <= i < |b| ==> BucketWellFormed(b[i], i)
  }

  /** `n` empty buckets: every list head NULL. */
  function Empty(n: nat): (r: seq<Bucket>)
    ensures |r| == n && forall i :: 0 <= i < n ==> r[i] == []
  {
    seq(n, _ => [])
  }

  // ---------------------------------------------------------------------------
  // Insert-or-increment and the tally of a word sequence
  // ---------------------------------------------------------------------------

  /** The buckets after `w` (short enough to have a bucket) is counted once:
      its node's value rises by one, or a node (w, 1) is prepended. */
  function Updated(b: seq<Bucket>, w: string): (r: seq<Bucket>)
    requires |w| < |b|
    ensures |r| == |b|
  {
    var bucket := b[|w|];
    match Find(bucket, w)
    case Some(i) => b[|w| := bucket[i := bucket[i].(value := bucket[i].value + 1)]]
    case None => b[|w| := [Entry(w, 1)] + bucket]
  }

  /** One token fed to the tally: a word with no bucket is rejected. */
  function Step(b: seq<Bucket>, w: string): (r: seq<Bucket>)
    ensures |r| == |b|
  {
    if |w| < |b| then Updated(b, w) else b
  }

  /** The buckets after every token of `ws`, in order, is fed to `b`. */
  function Feed(b: seq<Bucket>, ws: seq<string>): (r: seq<Bucket>)
    ensures |r| == |b|
  {
    if ws == [] then b else Step(Feed(b, ws[..|ws| - 1]), ws[|ws| - 1])
  }

  /** The tally of one file's tokens: `n` buckets, fed from empty. */
  function Tally(n: nat, ws: seq<string>): (r: seq<Bucket>)
    ensures |r| == n
  {
    Feed(Empty(n), ws)
  }

  // ---------------------------------------------------------------------------
  // Lemmas about the specification
  // ---------------------------------------------------------------------------

  /** Lookup looks only at the keys: buckets with the same keys at the same
      positions find the same node. */
  lemma {:induction false} FindSameKeys(b1: Bucket, b2: Bucket, w: string)
    requires |b1| == |b2|
    requires forall j :: 0 <= j < |b1| ==> b1[j].key == b2[j].key
    ensures Find(b1, w) == Find(b2, w)
  {
    match Find(b1, w)
    case None =>
    case Some(i) =>
      assert b2[i].key == w;
  }

  /** In a well-formed tally a node (w, c) sits in bucket |w| exactly when the
      tally's count for `w` is c: the buckets and `Count` say the same thing. */
  lemma {:induction false} EntryIffCount(b: seq<Bucket>, w: string, c: int)
    requires WellFormed(b) && c >= 1
    ensures (|w| < |b| && Entry(w, c) in b[|w|]) <==> Count(b, w) == c
  {
    if |w| < |b| && Entry(w, c) in b[|w|] {
      var bucket := b[|w|];
      assert BucketWellFormed(bucket, |w|);
      var j :| 0 <= j < |bucket| && bucket[j] == Entry(w, c);
      var k := Find(bucket, w).value;
      assert j == k;
    }
    if Count(b, w) == c {
      var bucket := b[|w|];
      assert bucket[Find(bucket, w).value] == Entry(w, c);
    }
  }

  /** Every node of a well-formed tally is filed under the length of its word,
      so `w` can only be in bucket |w|, and it is there exactly when it has a
      positive count. */
  lemma {:induction false} PresentIffCounted(b: seq<Bucket>, w: string)
    requires WellFormed(b)
    ensures Present(b, w) <==> Count(b, w) >= 1
  {
    if Present(b, w) {
      var i, j :| 0 <= i < |b| && 0 <= j < |b[i]| && b[i][j].key == w;
      assert BucketWellFormed(b[i], i);
      assert i == |w|;
      assert Find(b[i], w).Some?;
    }
    if Count(b, w) >= 1 {
      assert b[|w|][Find(b[|w|], w).value].key == w;
    }
  }

  /** Raising the value of the node found for `w` by one keeps the list's
      invariant and changes only the count of `w`, by one. */
  lemma {:induction false} IncrementInBucket(bucket: Bucket, len: nat, w: string, i: nat)
    requires BucketWellFormed(bucket, len) && Find(bucket, w) == Some(i)
    ensures BucketWellFormed(bucket[i := bucket[i].(value := bucket[i].value + 1)], len)
    ensures forall v ::
      CountIn(bucket[i := bucket[i].(value := bucket[i].value + 1)], v) == CountIn(bucket, v) + (if v == w then 1 else 0)
  {
    var nb := bucket[i := bucket[i].(value := bucket[i].value + 1)];
    forall v
      ensures CountIn(nb, v) == CountIn(bucket, v) + (if v == w then 1 else 0)
    {
      FindSameKeys(bucket, nb, v);
    }
  }

  /** Prepending (w, 1) to a list without `w` keeps the list's invariant and
      changes only the count of `w`, from 0 to 1. */
  lemma {:induction false} PrependInBucket(bucket: Bucket, w: string)
    requires BucketWellFormed(bucket, |w|) && Find(bucket, w) == None
    ensures BucketWellFormed([Entry(w, 1)] + bucket, |w|)
    ensures forall v :: CountIn([Entry(w, 1)] + bucket, v) == CountIn(bucket, v) + (if v == w then 1 else 0)
  {
    var nb := [Entry(w, 1)] + bucket;
    assert nb[1..] == bucket;
    forall j, k | 0 <= j < k < |nb|
      ensures nb[j].key != nb[k].key
    {
      if j > 0 {
        assert nb[j] == bucket[j - 1] && nb[k] == bucket[k - 1];
      }
    }
    forall v
      ensures CountIn(nb, v) == CountIn(bucket, v) + (if v == w then 1 else 0)
    {
      if v != w {
        assert Find(nb, v) == match Find(bucket, v) case None => None case Some(i) => Some(i + 1);
      }
    }
  }

  /** Replacing the list for length `len` by a well-formed one keeps the
      tally well-formed; the counts of words of other lengths stay. */
  lemma {:induction false} ReplaceBucket(b: seq<Bucket>, len: nat, nb: Bucket)
    requires WellFormed(b) && len < |b| && BucketWellFormed(nb, len)
    ensures WellFormed(b[len := nb])
    ensures forall v :: Count(b[len := nb], v) == if |v| == len then CountIn(nb, v) else Count(b, v)
  {
    var r := b[len := nb];
    forall i | 0 <= i < |r|
      ensures BucketWellFormed(r[i], i)
    {
      if i != len {
        assert r[i] == b[i];
      }
    }
  }

  /** Insert-or-increment keeps the invariant, raises the count of `w` by
      exactly one and leaves every other word's count as it was. */
  lemma {:induction false} UpdatedCounts(b: seq<Bucket>, w: string)
    requires WellFormed(b) && |w| < |b|
    ensures WellFormed(Updated(b, w))
    ensures forall v :: Count(Updated(b, w), v) == Count(b, v) + (if v == w then 1 else 0)
  {
    var bucket := b[|w|];
    assert BucketWellFormed(bucket, |w|);
    var nb: Bucket;
    match Find(bucket, w)
    case Some(i) =>
      nb := bucket[i := bucket[i].(value := bucket[i].value + 1)];
      IncrementInBucket(bucket, |w|, w, i);
    case None =>
      nb := [Entry(w, 1)] + bucket;
      PrependInBucket(bucket, w);
    assert Updated(b, w) == b[|w| := nb];
    assert forall v :: CountIn(nb, v) == CountIn(bucket, v) + (if v == w then 1 else 0);
    ReplaceBucket(b, |w|, nb);
  }

  /** Feeding a token sequence to a well-formed tally keeps the invariant and
      adds to each storable word's count its number of occurrences. */
  lemma {:induction false} FeedCounts(b: seq<Bucket>, ws: seq<string>)
    requires WellFormed(b)
    ensures WellFormed(Feed(b, ws))
    ensures forall w :: |w| < |b| ==> Count(Feed(b, ws), w) == Count(b, w) + multiset(ws)[w]
  {
    if ws != [] {
      var prefix, last := ws[..|ws| - 1], ws[|ws| - 1];
      assert ws == prefix + [last];
      FeedCounts(b, prefix);
      if |last| < |b| {
        UpdatedCounts(Feed(b, prefix), last);
      }
    }
  }

  /** The tally of a file counts every word of at most `n - 1` characters
      exactly as often as it occurs in the file, whatever was tallied before;
      longer words have no count. */
  lemma {:induction false} TallyCounts(n: nat, ws: seq<string>)
    ensures WellFormed(Tally(n, ws))
    ensures forall w :: Count(Tally(n, ws), w) == if |w| < n then multiset(ws)[w] else 0
  {
    FeedCounts(Empty(n), ws);
  }

  /** A word is stored in the tally of a file exactly when it occurs in the
      file and fits a bucket; a word not in the file is absent. */
  lemma {:induction false} TallyContents(n: nat, ws: seq<string>, w: string)
    ensures Present(Tally(n, ws), w) <==> w in ws && |w| < n
  {
    TallyCounts(n, ws);
    PresentIffCounted(Tally(n, ws), w);
  }

  // ---------------------------------------------------------------------------
  // The operations, as the C code performs them on the array of list heads
  // ---------------------------------------------------------------------------

  /** updateWordInTallyList: count `word` once in the bucket for its length.
      A NULL word or one longer than `maxLen` is rejected with 0 and changes
      nothing; otherwise the result is 1. */
  method UpdateWordInTallyList(heads: array<Bucket>, maxLen: nat, word: Option<string>) returns (r: int)
    requires heads.Length == maxLen + 1
    modifies heads
    ensures word.None? || |word.value| > maxLen ==> r == 0 && heads[..] == old(heads[..])
    ensures word.Some? && |word.value| <= maxLen ==> r == 1 && heads[..] == Updated(old(heads[..]), word.value)
    ensures word.Some? && |word.value| <= maxLen && WellFormed(old(heads[..])) ==>
      WellFormed(heads[..]) &&
      forall v :: Count(heads[..], v) == Count(old(heads[..]), v) + (if v == word.value then 1 else 0)
  {
    if word.None? || |word.value| > maxLen {
      return 0;
    }
    var w := word.value;
    var listIndex := |w|;
    var lookup := Find(heads[listIndex], w);
    match lookup {
      case Some(i) =>
        var node := heads[listIndex][i];
        heads[listIndex] := heads[listIndex][i := node.(value := node.value + 1)];
      case None =>
        heads[listIndex] := [Entry(w, 1)] + heads[listIndex];
    }
    if WellFormed(old(heads[..])) {
      UpdatedCounts(old(heads[..]), w);
    }
    return 1;
  }

  /** tallyWordsInFile: `source` is the file's token sequence, or None when the
      word extractor could not be created. On None the result is 0 and the
      buckets are untouched. Otherwise every bucket is emptied, every token is
      fed to UpdateWordInTallyList, and the result is 1; `totalWordCount` is
      the number of tokens read, which the C code prints. */
  method TallyWordsInFile(source: Option<seq<string>>, heads: array<Bucket>, maxLen: nat)
    returns (r: int, totalWordCount: nat)
    requires heads.Length == maxLen + 1
    modifies heads
    ensures source.None? ==> r == 0 && totalWordCount == 0 && heads[..] == old(heads[..])
    ensures source.Some? ==> r == 1 && totalWordCount == |source.value|
    ensures source.Some? ==> heads[..] == Tally(maxLen + 1, source.value)
  {
    if source.None? {
      return 0, 0;
    }
    var ws := source.value;
    // every list head back to NULL, including the one for words of maxLen characters
    var i := 0;
    while i <= maxLen
      invariant 0 <= i <= maxLen + 1
      invariant forall k :: 0 <= k < i ==> heads[k] == []
    {
      heads[i] := [];
      i := i + 1;
    }
    assert heads[..] == Empty(maxLen + 1);
    totalWordCount := 0;
    while totalWordCount < |ws|
      invariant totalWordCount <= |ws|
      invariant heads[..] == Feed(Empty(maxLen + 1), ws[..totalWordCount])
    {
      var aWord := ws[totalWordCount];
      totalWordCount := totalWordCount + 1;
      assert ws[..totalWordCount][..totalWordCount - 1] == ws[..totalWordCount - 1];
      var _ := UpdateWordInTallyList(heads, maxLen, Some(aWord));
    }
    assert ws[..totalWordCount] == ws;
    return 1, totalWordCount;
  }

  // ---------------------------------------------------------------------------
  // The reset loop as written in the source
  // ---------------------------------------------------------------------------

  /** The buckets after the source's reset loop, which nulls heads 0 .. maxLen-1
      and leaves the head for words of exactly maxLen characters as it was. */
  function ResetAsWritten(b: seq<Bucket>, maxLen: nat): (r: seq<Bucket>)
    ensures |r| == |b|
  {
    seq(|b|, i requires 0 <= i < |b| => if i < maxLen then [] else b[i])
  }

  /** With maxLen + 1 buckets, the reset as written keeps the previous file's
      counts for words of exactly maxLen characters, and the new file's
      occurrences are added on top of them. */
  lemma {:induction false} CarryOverAsWritten(prev: seq<Bucket>, maxLen: nat, ws: seq<string>, w: string)
    requires WellFormed(prev) && |prev| == maxLen + 1 && |w| == maxLen
    ensures Count(Feed(ResetAsWritten(prev, maxLen), ws), w) == Count(prev, w) + multiset(ws)[w]
  {
    var reset := ResetAsWritten(prev, maxLen);
    assert WellFormed(reset) by {
      forall i | 0 <= i < |reset|
        ensures BucketWellFormed(reset[i], i)
      {
        assert BucketWellFormed(prev[i], i);
      }
    }
    FeedCounts(reset, ws);
  }

  /** Two files in a row, the first with tokens "x" "x" and the second with
      "x", with maxLen = 1: the reset as written reports 3 occurrences of "x"
      for the second file, where the file has one. */
  lemma {:induction false} CarryOverExample()
    ensures Count(Feed(ResetAsWritten(Tally(2, ["x", "x"]), 1), ["x"]), "x") == 3
    ensures Count(Tally(2, ["x"]), "x") == 1
  {
    TallyCounts(2, ["x", "x"]);
    assert multiset(["x", "x"])["x"] == 2;
    CarryOverAsWritten(Tally(2, ["x", "x"]), 1, ["x"], "x");
    TallyCounts(2, ["x"]);
  }
}
