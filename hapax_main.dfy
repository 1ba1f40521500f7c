/**
 The reports of hapax_main.c over the tally's array of list heads: the full
 dump (printData), the hapax legomena (printHapax), and the release of all
 lists (deleteWordLists). The reports return the lines they would print, as
 sequences, instead of printing them.
 */
module HapaxMain {
  import opened WordTally

  /** The maximum word length main uses for every file. */
  const MAX_WORD_LEN: nat := 24

  /** One line of the full dump: a word, its count, and the length it is filed under. */
  datatype Row = Row(length: nat, word: string, count: int)

  ghost predicate NoDuplicates<T>(s: seq<T>)
  {
    forall p, q :: 0 <= p < q < |s| ==> s[p] != s[q]
  }

  /** No word is on two lines. */
  ghost predicate DistinctWords(rows: seq<Row>)
  {
    forall p, q :: 0 <= p < q < |rows| ==> rows[p].word != rows[q].word
  }

  // ---------------------------------------------------------------------------
  // What the reports produce
  // ---------------------------------------------------------------------------

  /** The dump lines of one list, walked from its head. */
  function BucketRows(len: nat, bucket: Bucket): (rows: seq<Row>)
  {
    if bucket == [] then []
    else [Row(len, bucket[0].key, bucket[0].value)] + BucketRows(len, bucket[1..])
  }

  /** The dump lines of all lists, shortest words first (an empty list gives none). */
  function AllData(b: seq<Bucket>): (rows: seq<Row>)
  {
    if b == [] then [] else AllData(b[..|b| - 1]) + BucketRows(|b| - 1, b[|b| - 1])
  }

  /** The words of one list whose count is 1, walked from its head. */
  function HapaxIn(bucket: Bucket): (words: seq<string>)
  {
    if bucket == [] then []
    else (if bucket[0].value == 1 then [bucket[0].key] else []) + HapaxIn(bucket[1..])
  }

  /** The words of all lists whose count is 1, shortest words first. */
  function AllHapax(b: seq<Bucket>): (words: seq<string>)
  {
    if b == [] then [] else AllHapax(b[..|b| - 1]) + HapaxIn(b[|b| - 1])
  }

  /** What printHapax prints for `hapaxLength`: -1 selects every length, a
      positive length selects that one list, anything else selects nothing.
      A positive length with no list yields nothing (the C code reads past
      the array there). */
  function Hapax(b: seq<Bucket>, hapaxLength: int): (words: seq<string>)
  {
    if hapaxLength == -1 then AllHapax(b)
    else if 0 < hapaxLength < |b| then HapaxIn(b[hapaxLength])
    else []
  }

  // ---------------------------------------------------------------------------
  // Lemmas: the dump
  // ---------------------------------------------------------------------------

  lemma {:induction false} BucketRowsMembers(len: nat, bucket: Bucket, r: Row)
    ensures r in BucketRows(len, bucket) <==> r.length == len && Entry(r.word, r.count) in bucket
  {
    if bucket != [] {
      BucketRowsMembers(len, bucket[1..], r);
      assert bucket == [bucket[0]] + bucket[1..];
    }
  }

  /** The dump holds a line for a node exactly when that node is in the list
      for the line's length. */
  lemma {:induction false} AllDataMembers(b: seq<Bucket>, r: Row)
    ensures r in AllData(b) <==> r.length < |b| && Entry(r.word, r.count) in b[r.length]
  {
    if b != [] {
      var prefix := b[..|b| - 1];
      AllDataMembers(prefix, r);
      BucketRowsMembers(|b| - 1, b[|b| - 1], r);
      if r.length < |b| - 1 {
        assert prefix[r.length] == b[r.length];
      }
    }
  }

  /** The dump lists the lengths in increasing order. */
  lemma {:induction false} AllDataOrdered(b: seq<Bucket>)
    ensures forall p, q :: 0 <= p < q < |AllData(b)| ==> AllData(b)[p].length <= AllData(b)[q].length
  {
    if b != [] {
      var prefix := b[..|b| - 1];
      var a, c := AllData(prefix), BucketRows(|b| - 1, b[|b| - 1]);
      AllDataOrdered(prefix);
      forall p | 0 <= p < |a|
        ensures a[p].length < |b| - 1
      {
        AllDataMembers(prefix, a[p]);
      }
      forall q | 0 <= q < |c|
        ensures c[q].length == |b| - 1
      {
        BucketRowsMembers(|b| - 1, b[|b| - 1], c[q]);
      }
    }
  }

  /** Round trip: in a well-formed tally the dump lines are exactly the pairs
      (word, count) that the tally's lookup gives, each filed under the
      word's own length. */
  lemma {:induction false} AllDataAgreesWithCount(b: seq<Bucket>)
    requires WellFormed(b)
    ensures forall r :: r in AllData(b) ==> r.length == |r.word| && r.count >= 1 && Count(b, r.word) == r.count
    ensures forall w :: Count(b, w) >= 1 ==> Row(|w|, w, Count(b, w)) in AllData(b)
  {
    forall r | r in AllData(b)
      ensures r.length == |r.word| && r.count >= 1 && Count(b, r.word) == r.count
    {
      AllDataMembers(b, r);
      assert BucketWellFormed(b[r.length], r.length);
      EntryIffCount(b, r.word, r.count);
    }
    forall w | Count(b, w) >= 1
      ensures Row(|w|, w, Count(b, w)) in AllData(b)
    {
      EntryIffCount(b, w, Count(b, w));
      AllDataMembers(b, Row(|w|, w, Count(b, w)));
    }
  }

  lemma {:induction false} ConcatDistinctWords(a: seq<Row>, c: seq<Row>)
    requires DistinctWords(a) && DistinctWords(c)
    requires forall r, s :: r in a && s in c ==> r.word != s.word
    ensures DistinctWords(a + c)
  {
    forall p, q | 0 <= p < q < |a + c|
      ensures (a + c)[p].word != (a + c)[q].word
    {
      if p < |a| && q >= |a| {
        assert (a + c)[p] in a && (a + c)[q] in c;
      }
    }
  }

  lemma {:induction false} BucketRowsDistinct(len: nat, bucket: Bucket)
    requires BucketWellFormed(bucket, len)
    ensures DistinctWords(BucketRows(len, bucket))
  {
    if bucket != [] {
      var tail := bucket[1..];
      assert BucketWellFormed(tail, len);
      BucketRowsDistinct(len, tail);
      var head := Row(len, bucket[0].key, bucket[0].value);
      forall r | r in BucketRows(len, tail)
        ensures r.word != head.word
      {
        BucketRowsMembers(len, tail, r);
      }
      ConcatDistinctWords([head], BucketRows(len, tail));
    }
  }

  /** In a well-formed tally no word appears on two lines of the dump, so each
      node is listed exactly once. */
  lemma {:induction false} AllDataDistinct(b: seq<Bucket>)
    requires WellFormed(b)
    ensures DistinctWords(AllData(b))
  {
    if b != [] {
      var prefix := b[..|b| - 1];
      var n := |b| - 1;
      assert WellFormed(prefix);
      AllDataDistinct(prefix);
      assert BucketWellFormed(b[n], n);
      BucketRowsDistinct(n, b[n]);
      forall r, s | r in AllData(prefix) && s in BucketRows(n, b[n])
        ensures r.word != s.word
      {
        AllDataMembers(prefix, r);
        assert BucketWellFormed(prefix[r.length], r.length);
        assert |r.word| < n;
        BucketRowsMembers(n, b[n], s);
        assert |s.word| == n;
      }
      ConcatDistinctWords(AllData(prefix), BucketRows(n, b[n]));
    }
  }

  // ---------------------------------------------------------------------------
  // Lemmas: the hapax legomena
  // ---------------------------------------------------------------------------

  lemma {:induction false} ConcatNoDuplicates<T>(a: seq<T>, c: seq<T>)
    requires NoDuplicates(a) && NoDuplicates(c)
    requires forall x :: x in a ==> x !in c
    ensures NoDuplicates(a + c)
  {
    forall p, q | 0 <= p < q < |a + c|
      ensures (a + c)[p] != (a + c)[q]
    {
      if p < |a| && q >= |a| {
        assert (a + c)[p] in a && (a + c)[q] in c;
      }
    }
  }

  lemma {:induction false} HapaxInMembers(bucket: Bucket, w: string)
    ensures w in HapaxIn(bucket) <==> Entry(w, 1) in bucket
  {
    if bucket != [] {
      HapaxInMembers(bucket[1..], w);
      assert bucket == [bucket[0]] + bucket[1..];
    }
  }

  lemma {:induction false} AllHapaxMembers(b: seq<Bucket>, w: string)
    ensures w in AllHapax(b) <==> exists i :: 0 <= i < |b| && Entry(w, 1) in b[i]
  {
    if b != [] {
      var prefix := b[..|b| - 1];
      AllHapaxMembers(prefix, w);
      HapaxInMembers(b[|b| - 1], w);
      if exists i :: 0 <= i < |b| && Entry(w, 1) in b[i] {
        var i :| 0 <= i < |b| && Entry(w, 1) in b[i];
        if i < |b| - 1 {
          assert prefix[i] == b[i];
        }
      }
    }
  }

  /** The hapax report is exact: with -1 it holds precisely the words whose
      count is 1, with a positive length precisely those of that length, and
      with 0 or anything below -1 nothing. A word counted twice or more never
      appears. */
  lemma {:induction false} HapaxExact(b: seq<Bucket>, hapaxLength: int, w: string)
    requires WellFormed(b)
    ensures w in Hapax(b, hapaxLength) <==>
      Count(b, w) == 1 && (hapaxLength == -1 || (hapaxLength > 0 && |w| == hapaxLength))
  {
    EntryIffCount(b, w, 1);
    if hapaxLength == -1 {
      AllHapaxMembers(b, w);
      if w in AllHapax(b) {
        var i :| 0 <= i < |b| && Entry(w, 1) in b[i];
        assert BucketWellFormed(b[i], i);
      }
    } else if 0 < hapaxLength < |b| {
      HapaxInMembers(b[hapaxLength], w);
      if w in Hapax(b, hapaxLength) {
        assert BucketWellFormed(b[hapaxLength], hapaxLength);
      }
    }
  }

  lemma {:induction false} HapaxInLengths(bucket: Bucket, len: nat)
    requires BucketWellFormed(bucket, len)
    ensures forall w :: w in HapaxIn(bucket) ==> |w| == len
  {
    forall w | w in HapaxIn(bucket)
      ensures |w| == len
    {
      HapaxInMembers(bucket, w);
    }
  }

  /** Across all lengths, the hapax report lists shorter words first. */
  lemma {:induction false} AllHapaxOrdered(b: seq<Bucket>)
    requires WellFormed(b)
    ensures forall w :: w in AllHapax(b) ==> |w| < |b|
    ensures forall p, q :: 0 <= p < q < |AllHapax(b)| ==> |AllHapax(b)[p]| <= |AllHapax(b)[q]|
  {
    if b != [] {
      var prefix := b[..|b| - 1];
      var n := |b| - 1;
      assert WellFormed(prefix);
      AllHapaxOrdered(prefix);
      assert BucketWellFormed(b[n], n);
      HapaxInLengths(b[n], n);
    }
  }

  lemma {:induction false} HapaxInDistinct(bucket: Bucket, len: nat)
    requires BucketWellFormed(bucket, len)
    ensures NoDuplicates(HapaxIn(bucket))
  {
    if bucket != [] {
      var tail := bucket[1..];
      assert BucketWellFormed(tail, len);
      HapaxInDistinct(tail, len);
      var head := if bucket[0].value == 1 then [bucket[0].key] else [];
      forall x | x in head
        ensures x !in HapaxIn(tail)
      {
        HapaxInMembers(tail, x);
      }
      ConcatNoDuplicates(head, HapaxIn(tail));
    }
  }

  /** In a well-formed tally the hapax report never lists a word twice. */
  lemma {:induction false} HapaxDistinct(b: seq<Bucket>, hapaxLength: int)
    requires WellFormed(b)
    ensures NoDuplicates(Hapax(b, hapaxLength))
  {
    if hapaxLength == -1 {
      AllHapaxDistinct(b);
    } else if 0 < hapaxLength < |b| {
      assert BucketWellFormed(b[hapaxLength], hapaxLength);
      HapaxInDistinct(b[hapaxLength], hapaxLength);
    }
  }

  lemma {:induction false} AllHapaxDistinct(b: seq<Bucket>)
    requires WellFormed(b)
    ensures NoDuplicates(AllHapax(b))
  {
    if b != [] {
      var prefix := b[..|b| - 1];
      var n := |b| - 1;
      assert WellFormed(prefix);
      AllHapaxDistinct(prefix);
      AllHapaxOrdered(prefix);
      assert BucketWellFormed(b[n], n);
      HapaxInDistinct(b[n], n);
      HapaxInLengths(b[n], n);
      ConcatNoDuplicates(AllHapax(prefix), HapaxIn(b[n]));
    }
  }

  // ---------------------------------------------------------------------------
  // Reports of a file's tally, in terms of the file's tokens
  // ---------------------------------------------------------------------------

  /** After a file is tallied with `n` lists, the hapax report holds exactly
      the storable words that occur once in the file (of the selected length
      when one is given). */
  lemma {:induction false} FileHapax(n: nat, ws: seq<string>, hapaxLength: int, w: string)
    ensures w in Hapax(Tally(n, ws), hapaxLength) <==>
      |w| < n && multiset(ws)[w] == 1 && (hapaxLength == -1 || (hapaxLength > 0 && |w| == hapaxLength))
  {
    TallyCounts(n, ws);
    HapaxExact(Tally(n, ws), hapaxLength, w);
  }

  /** After a file is tallied with `n` lists, the dump has a line (|w|, w, c)
      exactly when `w` is storable and occurs c >= 1 times in the file. */
  lemma {:induction false} FileData(n: nat, ws: seq<string>, w: string, c: int)
    ensures Row(|w|, w, c) in AllData(Tally(n, ws)) <==> |w| < n && c >= 1 && multiset(ws)[w] == c
  {
    TallyCounts(n, ws);
    AllDataAgreesWithCount(Tally(n, ws));
  }

  // ---------------------------------------------------------------------------
  // The operations on the array of list heads
  // ---------------------------------------------------------------------------

  /** deleteWordLists: free every non-empty list and null its head, for
      lengths 0 .. maxLen. Afterwards every list is empty; on lists that are
      already empty it changes nothing. */
  method DeleteWordLists(heads: array<Bucket>, maxLen: nat)
    requires heads.Length == maxLen + 1
    modifies heads
    ensures heads[..] == Empty(maxLen + 1)
    ensures old(heads[..]) == Empty(maxLen + 1) ==> heads[..] == old(heads[..])
  {
    var i := 0;
    while i <= maxLen
      invariant 0 <= i <= maxLen + 1
      invariant forall k :: 0 <= k < i ==> heads[k] == []
    {
      if heads[i] != [] {
        heads[i] := [];
      }
      i := i + 1;
    }
    assert heads[..] == Empty(maxLen + 1);
  }

  /** printData: one line per node, lists in increasing length order, each
      list walked from its head; empty lists print nothing. The tally is only
      read. */
  method PrintData(heads: array<Bucket>, maxLen: nat) returns (rows: seq<Row>)
    requires heads.Length == maxLen + 1
    ensures rows == AllData(heads[..])
  {
    rows := [];
    var i := 0;
    while i <= maxLen
      invariant 0 <= i <= maxLen + 1
      invariant rows == AllData(heads[..i])
    {
      var node := heads[i];
      while node != []
        invariant rows + BucketRows(i, node) == AllData(heads[..i]) + BucketRows(i, heads[i])
      {
        rows := rows + [Row(i, node[0].key, node[0].value)];
        node := node[1..];
      }
      assert heads[..i + 1][..i] == heads[..i];
      i := i + 1;
    }
    assert heads[..maxLen + 1] == heads[..];
  }

  /** printHapax: the words whose count is 1, from every list when
      `hapaxLength` is -1, from the list for `hapaxLength` when it is
      positive, and none otherwise. The tally is only read. */
  method PrintHapax(heads: array<Bucket>, maxLen: nat, hapaxLength: int) returns (words: seq<string>)
    requires heads.Length == maxLen + 1
    ensures words == Hapax(heads[..], hapaxLength)
  {
    words := [];
    if hapaxLength == -1 {
      var i := 0;
      while i <= maxLen
        invariant 0 <= i <= maxLen + 1
        invariant words == AllHapax(heads[..i])
      {
        var node := heads[i];
        while node != []
          invariant words + HapaxIn(node) == AllHapax(heads[..i]) + HapaxIn(heads[i])
        {
          if node[0].value == 1 {
            words := words + [node[0].key];
          }
          node := node[1..];
        }
        assert heads[..i + 1][..i] == heads[..i];
        i := i + 1;
      }
      assert heads[..maxLen + 1] == heads[..];
    } else if hapaxLength > 0 && hapaxLength <= maxLen {
      var node := heads[hapaxLength];
      while node != []
        invariant words + HapaxIn(node) == HapaxIn(heads[hapaxLength])
      {
        if node[0].value == 1 {
          words := words + [node[0].key];
        }
        node := node[1..];
      }
    }
  }

  // ---------------------------------------------------------------------------
  // The array main allocates
  // ---------------------------------------------------------------------------

  /** Every word that passes updateWordInTallyList's length check against
      `maxLen` has its list head inside an array of `slots` heads. */
  ghost predicate HeadsCoverAdmittedWords(slots: nat, maxLen: nat)
  {
    forall w: string :: |w| <= maxLen ==> |w| < slots
  }

  /** The heads cover every admitted word exactly when there are more than
      maxLen of them. */
  lemma {:induction false} HeadsCoverIff(slots: nat, maxLen: nat)
    ensures HeadsCoverAdmittedWords(slots, maxLen) <==> maxLen < slots
  {
    if HeadsCoverAdmittedWords(slots, maxLen) {
      var w: string := seq(maxLen, _ => 'a');
      assert |w| <= maxLen;
    }
  }

  /** main as written declares MAX_WORD_LEN heads while passing MAX_WORD_LEN as
      the length limit, so a word of 24 characters is admitted and indexes
      the head one past the end of the array. */
  lemma {:induction false} MainAllocationAsWritten()
    ensures !HeadsCoverAdmittedWords(MAX_WORD_LEN, MAX_WORD_LEN)
  {
    HeadsCoverIff(MAX_WORD_LEN, MAX_WORD_LEN);
  }

  /** main's array of list heads, all NULL, with one head per length 0 .. maxLen. */
  method NewWordLists(maxLen: nat) returns (heads: array<Bucket>)
    ensures fresh(heads) && heads.Length == maxLen + 1 && heads[..] == Empty(maxLen + 1)
    ensures HeadsCoverAdmittedWords(heads.Length, maxLen)
  {
    heads := new Bucket[maxLen + 1](_ => []);
    assert heads[..] == Empty(maxLen + 1);
    HeadsCoverIff(heads.Length, maxLen);
  }
}
